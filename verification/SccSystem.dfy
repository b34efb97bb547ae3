/** The snapshot coordinator under every interleaving of its atomic accesses:
    `take_snapshot` reuses the timestamp of the open window or claims the
    generation counter (even to odd), opens a new window and publishes it (odd to even).

    `top`, `claims`, `owner` and a call's `floor`, `claims0` and `fails` are
    history variables: no step reads them. */
module SccSystem {
  const MIN_WINDOW_NS := 100_000
  const MAX_WINDOW_NS := 5_000_000

  /** How far a call has come; Out means that the thread is in no call. */
  datatype Phase =
    | Out | Top | HasGen | HasTs | HasOpened | HasW | Miss | HasEpoch
    | Won | StoredW | StoredTs | StoredOpened

  datatype Caller = Caller(
    phase: Phase,
    now: nat,
    gen: nat,
    ts: nat,
    openedAt: nat,
    w: nat,
    newTs: nat,
    floor: nat,        // the largest result returned before the call
    claims0: nat,      // claims made before the call
    fails: nat         // compare_exchange failures of the call
  )

  datatype State = State(
    windowGen: nat,
    currentTs: nat,
    windowOpenAt: nat,
    adaptiveW: nat,
    hitCount: nat,
    totalCount: nat,
    epoch: nat,
    callers: seq<Caller>,
    claims: nat,       // successful compare_exchanges so far
    owner: nat,        // who made the last of them
    top: nat           // the largest result returned so far
  )

  datatype Action =
    | Call(i: nat, now: nat)
    | LoadGen(i: nat)
    | LoadTs(i: nat)
    | LoadOpened(i: nat)
    | LoadW(i: nat)
    | Decide(i: nat)
    | LoadEpoch(i: nat)
    | Cas(i: nat)
    | StoreW(i: nat, newW: nat)
    | StoreTs(i: nat)
    | StoreOpened(i: nat)
    | Publish(i: nat)
    | Tick              // some thread draws a timestamp or advances the epoch

  const IDLE := Caller(Out, 0, 0, 0, 0, 0, 0, 0, 0, 0)

  function Initial(n: nat): State {
    State(0, 0, 0, MIN_WINDOW_NS, 0, 0, 1, seq(n, _ => IDLE), 0, 0, 0)
  }

  function SaturatingSub(x: nat, y: nat): nat {
    if x >= y then x - y else 0
  }

  /** The open window may be reused. */
  predicate Hit(c: Caller) {
    c.gen != 0 && SaturatingSub(c.now, c.openedAt) < c.w
  }

  predicate At(s: State, i: nat, phase: Phase) {
    i < |s.callers| && s.callers[i].phase == phase
  }

  predicate Enabled(s: State, act: Action) {
    match act
    case Call(i, _) => At(s, i, Out)
    case LoadGen(i) => At(s, i, Top)
    case LoadTs(i) => At(s, i, HasGen)
    case LoadOpened(i) => At(s, i, HasTs)
    case LoadW(i) => At(s, i, HasOpened)
    case Decide(i) => At(s, i, HasW)
    case LoadEpoch(i) => At(s, i, Miss)
    case Cas(i) => At(s, i, HasEpoch)
    case StoreW(i, newW) => At(s, i, Won) && MIN_WINDOW_NS <= newW <= MAX_WINDOW_NS
    case StoreTs(i) => At(s, i, StoredW)
    case StoreOpened(i) => At(s, i, StoredTs)
    case Publish(i) => At(s, i, StoredOpened)
    case Tick => true
  }

  function Put(s: State, i: nat, c: Caller): State
    requires i < |s.callers|
  {
    s.(callers := s.callers[i := c])
  }

  function Max(x: nat, y: nat): nat {
    if x >= y then x else y
  }

  /** The call of thread i ends with result r. */
  function Return(s: State, i: nat, r: nat): State
    requires i < |s.callers|
  {
    Put(s, i, s.callers[i].(phase := Out)).(top := Max(s.top, r))
  }

  predicate Claims(s: State, act: Action) {
    act.Cas? && act.i < |s.callers| && s.callers[act.i].gen == s.windowGen
  }

  function Next(s: State, act: Action): State
    requires Enabled(s, act)
  {
    if act.Tick? then s.(epoch := s.epoch + 1) else
    var i, c := act.i, s.callers[act.i];
    match act
    case Call(_, now) =>
      Put(s, i, IDLE.(phase := Top, now := now, floor := s.top, claims0 := s.claims)).(totalCount := s.totalCount + 1)
    case LoadGen(_) =>
      if s.windowGen % 2 == 1 then s else Put(s, i, c.(phase := HasGen, gen := s.windowGen))
    case LoadTs(_) => Put(s, i, c.(phase := HasTs, ts := s.currentTs))
    case LoadOpened(_) => Put(s, i, c.(phase := HasOpened, openedAt := s.windowOpenAt))
    case LoadW(_) => Put(s, i, c.(phase := HasW, w := s.adaptiveW))
    case Decide(_) =>
      if Hit(c) then Return(s, i, c.ts).(hitCount := s.hitCount + 1) else Put(s, i, c.(phase := Miss))
    case LoadEpoch(_) => Put(s, i, c.(phase := HasEpoch, newTs := s.epoch))
    case Cas(_) =>
      if c.gen == s.windowGen then
        Put(s, i, c.(phase := Won)).(windowGen := s.windowGen + 1, claims := s.claims + 1, owner := i)
      else
        Put(s, i, c.(phase := Top, fails := c.fails + 1))
    case StoreW(_, newW) => Put(s, i, c.(phase := StoredW)).(adaptiveW := newW)
    case StoreTs(_) => Put(s, i, c.(phase := StoredTs)).(currentTs := c.newTs)
    case StoreOpened(_) => Put(s, i, c.(phase := StoredOpened)).(windowOpenAt := c.now)
    case Publish(_) => Return(s, i, c.newTs).(windowGen := c.gen + 2)
  }

  /** The step completes a call, with this result. */
  predicate Returns(s: State, act: Action)
    requires Enabled(s, act)
  {
    act.Publish? || (act.Decide? && Hit(s.callers[act.i]))
  }

  function Result(s: State, act: Action): nat
    requires Enabled(s, act) && Returns(s, act)
  {
    if act.Publish? then s.callers[act.i].newTs else s.callers[act.i].ts
  }

  // ------------------------------------------------------------------- invariant

  /** Between claiming the generation and publishing it. */
  predicate InWindow(c: Caller) {
    c.phase.Won? || c.phase.StoredW? || c.phase.StoredTs? || c.phase.StoredOpened?
  }

  predicate Reading(c: Caller) {
    c.phase.HasGen? || c.phase.HasTs? || c.phase.HasOpened? || c.phase.HasW? || c.phase.Miss? || c.phase.HasEpoch?
  }

  /** `ts` has been loaded, and the claim not yet been tried. */
  predicate Loaded(c: Caller) {
    Reading(c) && !c.phase.HasGen?
  }

  predicate Exclusive(s: State) {
    && (forall i :: 0 <= i < |s.callers| ==>
          (InWindow(s.callers[i]) <==> s.windowGen % 2 == 1 && i == s.owner))
    && (s.windowGen % 2 == 1 ==> s.owner < |s.callers|)
    && s.claims == (s.windowGen + 1) / 2
  }

  predicate CallerOk(s: State, c: Caller) {
    && (c.phase.Out? || (c.floor <= s.top && c.claims0 <= s.claims))
    && (c.phase.Top? ==> c.fails + c.claims0 <= s.claims)
    && (Reading(c) ==> c.gen % 2 == 0 && c.gen <= s.windowGen && c.fails + c.claims0 <= c.gen / 2)
    && (Loaded(c) ==> c.floor <= c.ts <= s.currentTs && (c.gen > 0 ==> c.ts > 0))
    && (c.phase.HasEpoch? || InWindow(c) ==> 0 < c.newTs <= s.epoch && c.floor <= c.newTs)
    && (c.phase.HasEpoch? && c.gen == s.windowGen ==> s.currentTs <= c.newTs)
    && (InWindow(c) ==> c.gen + 1 == s.windowGen && c.fails + c.claims0 <= c.gen / 2 && s.currentTs <= c.newTs)
    && (c.phase.StoredTs? || c.phase.StoredOpened? ==> s.currentTs == c.newTs)
  }

  predicate Inv(s: State) {
    && Exclusive(s)
    && s.top <= s.currentTs <= s.epoch
    && s.epoch > 0
    && (s.windowGen >= 2 ==> s.currentTs > 0)
    && forall i :: 0 <= i < |s.callers| ==> CallerOk(s, s.callers[i])
  }

  lemma InitialInv(n: nat)
    ensures Inv(Initial(n))
  {
  }

  /** At most one thread is between claim and publish. */
  lemma StepExclusive(s: State, act: Action)
    requires Inv(s) && Enabled(s, act)
    ensures Exclusive(Next(s, act)) && |Next(s, act).callers| == |s.callers|
  {
    match act
    case Tick =>
    case Cas(i) => CasExclusive(s, i);
    case Publish(i) => PublishExclusive(s, i);
    case _ =>
      hide Hit, CallerOk, Enabled, Next;
      SameWindow(s, act);
  }

  /** All other steps leave the generation alone, and their thread inside or outside the window. */
  lemma SameWindow(s: State, act: Action)
    requires Enabled(s, act) && !act.Tick? && !act.Cas? && !act.Publish?
    ensures var s', i := Next(s, act), act.i;
            && |s'.callers| == |s.callers|
            && s'.callers == s.callers[i := s'.callers[i]]
            && InWindow(s'.callers[i]) == InWindow(s.callers[i])
            && s'.windowGen == s.windowGen && s'.claims == s.claims && s'.owner == s.owner
  {
    hide Hit;
  }

  lemma CasExclusive(s: State, i: nat)
    requires Inv(s) && Enabled(s, Cas(i))
    ensures Exclusive(Next(s, Cas(i))) && |Next(s, Cas(i)).callers| == |s.callers|
  {
    assert CallerOk(s, s.callers[i]);
    hide CallerOk;
    assert s.windowGen % 2 == 0 ==> (s.windowGen + 2) / 2 == (s.windowGen + 1) / 2 + 1;
  }

  lemma PublishExclusive(s: State, i: nat)
    requires Inv(s) && Enabled(s, Publish(i))
    ensures Exclusive(Next(s, Publish(i))) && |Next(s, Publish(i)).callers| == |s.callers|
  {
    assert CallerOk(s, s.callers[i]);
    hide CallerOk;
  }

  /** Shared values only grow, and only the owner of an odd generation writes them. */
  lemma StepValues(s: State, act: Action)
    requires Inv(s) && Enabled(s, act)
    ensures var s' := Next(s, act);
            && s.top <= s'.top && s.currentTs <= s'.currentTs && s.windowGen <= s'.windowGen && s.claims <= s'.claims
            && s'.top <= s'.currentTs <= s'.epoch
            && s.epoch <= s'.epoch <= s.epoch + 1
            && (s'.windowGen >= 2 ==> s'.currentTs > 0)
            && (s'.windowGen == s.windowGen && s.windowGen % 2 == 0 ==> s'.currentTs == s.currentTs)
  {
    hide Hit, SaturatingSub;
    if !act.Tick? {
      assert CallerOk(s, s.callers[act.i]);
    }
  }

  lemma OwnStep(s: State, act: Action)
    requires Inv(s) && Enabled(s, act) && !act.Tick?
    ensures var s' := Next(s, act); |s'.callers| == |s.callers| && CallerOk(s', s'.callers[act.i])
  {
    hide Inv, Enabled, CallerOk, Next;
    match act
    case Call(_, _) => OwnCall(s, act);
    case LoadGen(_) => OwnLoadGen(s, act);
    case LoadTs(_) => OwnLoadTs(s, act);
    case LoadEpoch(_) => OwnLoadEpoch(s, act);
    case Cas(_) => OwnCas(s, act);
    case StoreW(_, _) => OwnStore(s, act);
    case StoreTs(_) => OwnStore(s, act);
    case StoreOpened(_) => OwnStore(s, act);
    case Publish(_) => OwnStore(s, act);
    case _ => OwnLoad(s, act);
  }

  lemma OwnCall(s: State, act: Action)
    requires Inv(s) && Enabled(s, act) && act.Call?
    ensures var s' := Next(s, act); |s'.callers| == |s.callers| && CallerOk(s', s'.callers[act.i])
  {
  }

  lemma OwnLoadGen(s: State, act: Action)
    requires Inv(s) && Enabled(s, act) && act.LoadGen?
    ensures var s' := Next(s, act); |s'.callers| == |s.callers| && CallerOk(s', s'.callers[act.i])
  {
    assert CallerOk(s, s.callers[act.i]);
    assert s.windowGen % 2 == 0 ==> s.claims == s.windowGen / 2;
  }

  lemma OwnLoadTs(s: State, act: Action)
    requires Inv(s) && Enabled(s, act) && act.LoadTs?
    ensures var s' := Next(s, act); |s'.callers| == |s.callers| && CallerOk(s', s'.callers[act.i])
  {
    assert CallerOk(s, s.callers[act.i]);
    hide Exclusive;
  }

  /** The steps that load a parameter of the window, or decide on what was loaded. */
  lemma OwnLoad(s: State, act: Action)
    requires Inv(s) && Enabled(s, act) && (act.LoadOpened? || act.LoadW? || act.Decide?)
    ensures var s' := Next(s, act); |s'.callers| == |s.callers| && CallerOk(s', s'.callers[act.i])
  {
    assert CallerOk(s, s.callers[act.i]);
    hide Exclusive, Hit, SaturatingSub;
  }

  lemma OwnLoadEpoch(s: State, act: Action)
    requires Inv(s) && Enabled(s, act) && act.LoadEpoch?
    ensures var s' := Next(s, act); |s'.callers| == |s.callers| && CallerOk(s', s'.callers[act.i])
  {
    assert CallerOk(s, s.callers[act.i]);
    hide Exclusive;
  }

  /** A claim that fails lost against another that was made since the generation was loaded. */
  lemma OwnCas(s: State, act: Action)
    requires Inv(s) && Enabled(s, act) && act.Cas?
    ensures var s' := Next(s, act); |s'.callers| == |s.callers| && CallerOk(s', s'.callers[act.i])
  {
    var c := s.callers[act.i];
    assert CallerOk(s, c);
    assert s.claims == (s.windowGen + 1) / 2;
    assert c.gen < s.windowGen ==> c.gen / 2 + 1 <= s.claims;
    hide Inv, Exclusive;
  }

  lemma OwnStore(s: State, act: Action)
    requires Inv(s) && Enabled(s, act) && (act.StoreW? || act.StoreTs? || act.StoreOpened? || act.Publish?)
    ensures var s' := Next(s, act); |s'.callers| == |s.callers| && CallerOk(s', s'.callers[act.i])
  {
    assert CallerOk(s, s.callers[act.i]);
    hide Exclusive;
  }

  lemma OtherStep(s: State, act: Action, j: nat)
    requires Inv(s) && Enabled(s, act) && j < |s.callers| && (act.Tick? || j != act.i)
    ensures var s' := Next(s, act); |s'.callers| == |s.callers| && CallerOk(s', s'.callers[j])
  {
    StepExclusive(s, act);
    StepValues(s, act);
    assert CallerOk(s, s.callers[j]) && (InWindow(s.callers[j]) ==> s.windowGen % 2 == 1 && j == s.owner);
    if act.Cas? || act.StoreTs? || act.Publish? {
      assert CallerOk(s, s.callers[act.i]) && (InWindow(s.callers[act.i]) ==> act.i == s.owner);
    }
    hide Inv, Exclusive, Hit;
  }

  lemma StepInv(s: State, act: Action)
    requires Inv(s) && Enabled(s, act)
    ensures Inv(Next(s, act))
  {
    hide CallerOk, Next;
    var s' := Next(s, act);
    StepExclusive(s, act);
    StepValues(s, act);
    forall j | 0 <= j < |s'.callers| ensures CallerOk(s', s'.callers[j]) {
      if act.Tick? || j != act.i {
        OtherStep(s, act, j);
      } else {
        OwnStep(s, act);
      }
    }
  }
}
