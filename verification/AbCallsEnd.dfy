/** The calls of all threads come to an end: when no thread starts another update,
    no schedule of fix-ups goes on for ever. */
module AbCallsEnd {
  import opened AbNodes
  import opened AbPatches
  import opened AbOutcomes
  import opened AbPaths
  import opened AbSystem
  import opened AbRebalance
  import opened AbMarks
  import opened AbHandOver

  // ------------------------------------------------- calls while the tree stays as it is

  ghost predicate PlacedAt(t: Node, id: nat, path: seq<nat>) {
    Valid(t, path) && Under(t, path).id == id
  }

  /** How far below the root the node with this address hangs. */
  ghost function Level(t: Node, id: nat): nat {
    if path :| PlacedAt(t, id, path) then |path| else 0
  }

  lemma LevelIs(d: Degree, s: State, path: seq<nat>)
    requires Inv(d, s) && Valid(s.root, path)
    ensures Level(s.root, Under(s.root, path).id) == |path|
  {
    var t, id := s.root, Under(s.root, path).id;
    assert PlacedAt(t, id, path);
    Runs.AddressState(d, s, id);
    forall x | PlacedAt(t, id, x) ensures x == path {
      Runs.OnePlace(t, x, path, 0);
    }
  }

  /** How many steps a thread can take before the tree has to change. A call for a weight violation
      only asks for calls higher up; it returns when the tree has changed. */
  ghost function Wait(d: Degree, t: Node, stack: seq<Task>): nat {
    if stack == [] then 0
    else if Settled(d, t, stack[0]) then 1 + Wait(d, t, stack[1..])
    else if stack[0].WeightCall? then Level(t, stack[0].id) + 1
    else Level(t, stack[0].id) + 2 + Wait(d, t, stack[1..])
  }

  ghost function WaitAll(d: Degree, t: Node, stacks: seq<seq<Task>>): nat {
    if stacks == [] then 0 else Wait(d, t, stacks[0]) + WaitAll(d, t, stacks[1..])
  }

  lemma {:induction false} WaitPut(d: Degree, t: Node, stacks: seq<seq<Task>>, i: nat, stack: seq<Task>)
    requires i < |stacks|
    ensures WaitAll(d, t, stacks[i := stack]) + Wait(d, t, stacks[i]) == WaitAll(d, t, stacks) + Wait(d, t, stack)
  {
    hide Wait;
    if i == 0 {
      assert stacks[i := stack][1..] == stacks[1..];
    } else {
      assert stacks[i := stack][1..] == stacks[1..][i - 1 := stack];
      WaitPut(d, t, stacks[1..], i - 1, stack);
    }
  }

  /** The first of the calls that come first is for a node of weight 0, no lower than the node met. */
  lemma HelpersWait(d: Degree, s: State, path: seq<nat>, ix: nat, forDegree: bool, rest: seq<Task>)
    requires Inv(d, s) && Valid(s.root, path) && Under(s.root, path).Internal? && ix < |Under(s.root, path).kids|
    requires Helpers(Under(s.root, path), ix, forDegree) != []
    ensures var helpers := Helpers(Under(s.root, path), ix, forDegree);
            Wait(d, s.root, helpers + rest) <= |path| + if forDegree then 2 else 1
  {
    var t, p := s.root, Under(s.root, path);
    var helpers := Helpers(p, ix, forDegree);
    var at := if !p.weight then path else path + [if !p.kids[ix].weight then ix else Sibling(ix)];
    if p.weight {
      Longer(t, path, at[|path|]);
    }
    assert !Under(t, at).weight && helpers[0] == WeightCall(Under(t, at).id);
    MarkedAt(t, at, LightNode);
    LevelIs(d, s, at);
    assert (helpers + rest)[0] == helpers[0];
  }

  /** A call that has met its node is not settled. */
  lemma MetWait(d: Degree, s: State, stack: seq<Task>, path: seq<nat>, ix: nat)
    requires Inv(d, s) && Met(d, s, stack, path, ix)
    ensures Wait(d, s.root, stack) ==
            |path| + if stack[0].WeightCall? then 2 else 3 + Wait(d, s.root, stack[1..])
  {
    var t, at := s.root, path + [ix];
    Longer(t, path, ix);
    LevelIs(d, s, at);
    BelowRoot(d, s, at);
    MarkedAt(t, at, if stack[0].WeightCall? then LightNode else SmallNode(MinDegree(d)));
  }

  /** A step that leaves the tree alone brings its thread nearer to one that does not. */
  lemma IdleStep(d: Degree, w: Work, mv: Move)
    requires HandInv(d, w) && Can(d, w, mv) && !mv.Update? && !mv.Fix?
    ensures var w' := After(d, w, mv); w'.tree == w.tree && WaitAll(d, w.tree.root, w'.stacks) < WaitAll(d, w.tree.root, w.stacks)
  {
    hide Inv, InCharge, Level, Helpers;
    var s, stack := w.tree, w.stacks[mv.i];
    match mv
    case Drop(i) =>
      WaitPut(d, s.root, w.stacks, i, stack[1..]);
    case Help(i, path, ix) =>
      var helpers := Helpers(Under(s.root, path), ix, stack[0].DegreeCall?);
      MetWait(d, s, stack, path, ix);
      HelpersWait(d, s, path, ix, stack[0].DegreeCall?, stack);
      WaitPut(d, s.root, w.stacks, i, helpers + stack);
    case GiveUp(i, path, ix) =>
      var helpers := Helpers(Under(s.root, path), ix, true);
      MetWait(d, s, stack, path, ix);
      if helpers != [] {
        HelpersWait(d, s, path, ix, true, stack[1..]);
      } else {
        assert helpers + stack[1..] == stack[1..];
      }
      WaitPut(d, s.root, w.stacks, i, helpers + stack[1..]);
  }

  // ------------------------------------------------------------------ every schedule

  /** A step of a call that has still to return. */
  ghost predicate Works(d: Degree, w: Work, w': Work) {
    exists mv :: Can(d, w, mv) && !mv.Update? && w' == After(d, w, mv)
  }

  lemma WorksLower(d: Degree, w: Work, w': Work)
    requires HandInv(d, w) && Works(d, w, w')
    ensures HandInv(d, w')
    ensures || Lower(MinDegree(d), w'.tree.root, w.tree.root, 0)
            || (w'.tree == w.tree && WaitAll(d, w'.tree.root, w'.stacks) < WaitAll(d, w.tree.root, w.stacks))
  {
    hide Inv, InCharge, Lower, Enabled, Next;
    var mv :| Can(d, w, mv) && !mv.Update? && w' == After(d, w, mv);
    StepHand(d, w, mv);
    if mv.Fix? {
      StepLower(d, w.tree, mv.act);
    } else {
      IdleStep(d, w, mv);
    }
  }

  lemma {:induction false} WorkRunsOut(d: Degree, f: nat -> Work, i: nat)
    requires HandInv(d, f(i)) && forall j: nat :: Works(d, f(j), f(j + 1))
    ensures false
    decreases Count(Zeros, f(i).tree.root, 0), Count(Dist, f(i).tree.root, 0), Count(Nodes, f(i).tree.root, 0),
              Count(Small(MinDegree(d)), f(i).tree.root, 0), WaitAll(d, f(i).tree.root, f(i).stacks)
  {
    hide HandInv, Works, Count, CountF, WaitAll;
    WorksLower(d, f(i), f(i + 1));
    WorkRunsOut(d, f, i + 1);
  }

  /** From any reachable state: when no thread starts another update, the calls of all threads cannot go
      on for ever, whatever the schedule. */
  lemma NoEndlessCalls(d: Degree, f: nat -> Work)
    requires HandInv(d, f(0))
    ensures exists i: nat :: !Works(d, f(i), f(i + 1))
  {
    if forall i: nat :: Works(d, f(i), f(i + 1)) {
      WorkRunsOut(d, f, 0);
    }
  }

  /** No step of a call is possible. */
  ghost predicate Stopped(d: Degree, w: Work) {
    forall w' :: !Works(d, w, w')
  }

  /** And they can only stop when all of them have returned. */
  lemma StopsQuiet(d: Degree, w: Work)
    requires HandInv(d, w)
    ensures Stopped(d, w) <==> Quiet(w)
  {
    hide HandInv;
    if !Quiet(w) {
      var i :| 0 <= i < |w.stacks| && w.stacks[i] != [];
      var mv := NeverStuck(d, w, i);
      assert Works(d, w, After(d, w, mv));
    }
  }

  /** A schedule of the threads' calls, no thread starting another update. */
  ghost predicate CallsRun(d: Degree, r: seq<Work>) {
    && r != [] && HandInv(d, r[0])
    && forall i :: 0 <= i < |r| - 1 ==> Works(d, r[i], r[i + 1])
  }

  lemma WorksLookup(d: Degree, w: Work, w': Work, k: int)
    requires HandInv(d, w) && Works(d, w, w')
    ensures Lookup(w'.tree.root, k) == Lookup(w.tree.root, k)
  {
    hide InCharge, Inv, Enabled, Next, Lookup;
    var mv :| Can(d, w, mv) && !mv.Update? && w' == After(d, w, mv);
    if mv.Fix? {
      StepLookup(d, w.tree, mv.act, k);
    }
  }

  lemma {:induction false} CallsKeep(d: Degree, r: seq<Work>, i: nat)
    requires CallsRun(d, r) && i < |r|
    ensures HandInv(d, r[i]) && forall k :: Lookup(r[i].tree.root, k) == Lookup(r[0].tree.root, k)
  {
    hide HandInv, Works, Lookup, Lower, WaitAll;
    if i > 0 {
      CallsKeep(d, r, i - 1);
      assert Works(d, r[i - 1], r[i]);
      WorksLower(d, r[i - 1], r[i]);
      forall k ensures Lookup(r[i].tree.root, k) == Lookup(r[0].tree.root, k) {
        WorksLookup(d, r[i - 1], r[i], k);
      }
    }
  }

  /** Whatever the schedule, when it cannot go on: all calls have returned, the dictionary is the one
      they found, and the tree is strict exactly if no abandoned node is left in it. */
  lemma CallsLeave(d: Degree, r: seq<Work>)
    requires CallsRun(d, r) && Stopped(d, r[|r| - 1])
    ensures var w := r[|r| - 1];
            && Quiet(w)
            && (forall k :: Lookup(w.tree.root, k) == Lookup(r[0].tree.root, k))
            && (Strict(d, w.tree.root) <==> forall id :: !LeftOver(d, w, id))
  {
    hide HandInv, Stopped, Works, Lookup, Strict, LeftOver;
    CallsKeep(d, r, |r| - 1);
    StopsQuiet(d, r[|r| - 1]);
    QuietStrict(d, r[|r| - 1]);
  }
}
