/** Rebalancing terminates, can always go on while there is a violation, and
    therefore ends in a strict (a,b)-tree. */
module AbRebalance {
  import opened AbNodes
  import opened AbOrderProofs
  import opened AbPatches
  import opened AbCountProofs
  import opened AbOutcomes
  import opened AbPaths
  import opened AbSystem

  predicate Repair(act: Action) {
    act.FixWeight? || act.FixDegree?
  }

  /** No weight violation, and no degree violation outside the root. */
  ghost predicate Strict(d: Degree, t: Node) {
    Violations(MinDegree(d), t) == 0
  }

  // ------------------------------------------------------------- termination

  lemma DepthPositive(t: Node, path: seq<nat>)
    requires Valid(t, path) && t.weight
    ensures DepthAt(t, path, 0) == 0 <==> path == []
  {
    if path != [] {
      DepthGrows(t.kids[path[0]], path[1..], 1);
    }
  }

  lemma {:induction false} DepthGrows(t: Node, path: seq<nat>, depth: nat)
    requires Valid(t, path)
    ensures DepthAt(t, path, depth) >= depth
  {
    if path != [] {
      DepthGrows(t.kids[path[0]], path[1..], depth + t.W());
    }
  }

  lemma GraftLower(a: nat, t: Node, path: seq<nat>, n: Node)
    requires Valid(t, path) && Lower(a, n, Under(t, path), DepthAt(t, path, 0))
    ensures Lower(a, Graft(t, path, n), t, 0)
  {
    hide Count, CountF;
    GraftCount(Zeros, t, path, n, 0);
    GraftCount(Dist, t, path, n, 0);
    GraftCount(Nodes, t, path, n, 0);
    GraftCount(Small(a), t, path, n, 0);
  }

  /** Every repair lowers the measure (zero weights, distances, nodes, small nodes). */
  lemma StepLower(d: Degree, s: State, act: Action)
    requires Inv(d, s) && Enabled(d, s, act) && Repair(act)
    ensures Lower(MinDegree(d), Next(d, s, act).root, s.root, 0)
  {
    var path := Place(s, act);
    var p, top, e := Under(s.root, path), path == [], DepthAt(s.root, path, 0);
    match act {
      case FixWeight(_, ix) =>
        WeightProgress(d, p, ix, top, s.next, e);
      case FixDegree(_, ix) =>
        DegreeProgress(d, p, ix, top, s.next, e);
    }
    GraftLower(MinDegree(d), s.root, path, Replacement(d, s, act).node);
  }

  ghost predicate Repairs(d: Degree, s: State, s': State) {
    exists act :: Enabled(d, s, act) && Repair(act) && s' == Next(d, s, act)
  }

  /** No schedule repairs forever. */
  lemma NoEndlessRepair(d: Degree, f: nat -> State)
    requires Inv(d, f(0))
    ensures exists i: nat :: !Repairs(d, f(i), f(i + 1))
  {
    if forall i: nat :: Repairs(d, f(i), f(i + 1)) {
      RepairsRunOut(d, f, 0);
    }
  }

  lemma RepairsLower(d: Degree, s: State, s': State)
    requires Inv(d, s) && Repairs(d, s, s')
    ensures Inv(d, s') && Lower(MinDegree(d), s'.root, s.root, 0)
  {
    var act :| Enabled(d, s, act) && Repair(act) && s' == Next(d, s, act);
    StepInv(d, s, act);
    StepLower(d, s, act);
  }

  lemma {:induction false} RepairsRunOut(d: Degree, f: nat -> State, i: nat)
    requires Inv(d, f(i)) && forall j: nat :: Repairs(d, f(j), f(j + 1))
    ensures false
    decreases Count(Zeros, f(i).root, 0), Count(Dist, f(i).root, 0), Count(Nodes, f(i).root, 0),
              Count(Small(MinDegree(d)), f(i).root, 0)
  {
    hide Inv, Repairs, Count, CountF;
    RepairsLower(d, f(i), f(i + 1));
    RepairsRunOut(d, f, i + 1);
  }

  // ----------------------------------------------------------------- progress

  lemma {:induction false} BadKid(q: Stat, kids: seq<Node>, depth: nat) returns (i: nat)
    requires CountF(q, kids, depth) > 0
    ensures i < |kids| && Count(q, kids[i], depth) > 0
  {
    if Count(q, kids[0], depth) > 0 {
      i := 0;
    } else {
      var j := BadKid(q, kids[1..], depth);
      i := j + 1;
    }
  }

  /** Below a sound node, the topmost violation can be repaired. */
  lemma {:induction false} FindRepair(d: Degree, t: Node, sp: Span) returns (path: seq<nat>, ix: nat)
    requires Wf(d, t, sp) && RootFits(t) && Violations(MinDegree(d), t) > 0
    ensures Valid(t, path) && (CanFixWeight(d, Under(t, path), ix) || CanFixDegree(d, Under(t, path), ix))
    decreases t
  {
    var a := MinDegree(d);
    path := [];
    if i :| 0 <= i < |t.kids| && !t.kids[i].weight {
      ix := i;
      WeightGuard(d, t, ix, sp);
    } else if i :| 0 <= i < |t.kids| && t.kids[i].Size() < a {
      ix := i;
      DegreeGuard(d, t, ix, sp);
    } else {
      var i := BadKid(Bad(a), t.kids, 0);
      var c := t.kids[i];
      CountDeeper(Bad(a), c.Kids(), 0, c.W());
      WfShape(d, c, Slot(t.keys, sp.(h := sp.h - t.W()), i));
      var rest;
      rest, ix := FindRepair(d, c, Slot(t.keys, sp.(h := sp.h - t.W()), i));
      path := [i] + rest;
      assert path[1..] == rest;
    }
  }

  /** As long as the tree is not strict, some repair is enabled. */
  lemma RepairEnabled(d: Degree, s: State) returns (act: Action)
    requires Inv(d, s) && !Strict(d, s.root)
    ensures Enabled(d, s, act) && Repair(act)
  {
    var path, ix := FindRepair(d, s.root, Top(s.root));
    act := if CanFixWeight(d, Under(s.root, path), ix) then FixWeight(path, ix) else FixDegree(path, ix);
  }

  ghost predicate RepairRun(d: Degree, run: seq<State>) {
    && run != []
    && Inv(d, run[0])
    && forall i :: 0 <= i < |run| - 1 ==> Repairs(d, run[i], run[i + 1])
  }

  /** From every relaxed tree, repairs alone reach a strict tree with the same dictionary. */
  lemma {:induction false} Converges(d: Degree, s: State) returns (run: seq<State>)
    requires Inv(d, s)
    ensures RepairRun(d, run) && run[0] == s
    ensures var t := run[|run| - 1]; Inv(d, t) && Strict(d, t.root) && forall k :: Lookup(t.root, k) == Lookup(s.root, k)
    decreases Count(Zeros, s.root, 0), Count(Dist, s.root, 0), Count(Nodes, s.root, 0),
              Count(Small(MinDegree(d)), s.root, 0)
  {
    hide Inv, Enabled, Next, Violations;
    if Strict(d, s.root) {
      run := [s];
    } else {
      var act := RepairEnabled(d, s);
      var s' := Next(d, s, act);
      StepInv(d, s, act);
      StepLower(d, s, act);
      var rest := Converges(d, s');
      run := [s] + rest;
      assert Repairs(d, s, s');
      forall i | 0 <= i < |run| - 1 ensures Repairs(d, run[i], run[i + 1]) {
        if i > 0 {
          assert Repairs(d, rest[i - 1], rest[i]);
        }
      }
      forall k ensures Lookup(run[|run| - 1].root, k) == Lookup(s.root, k) {
        StepLookup(d, s, act, k);
      }
    }
  }

  // ------------------------------------------------ violations left by one step

  lemma GraftViolations(a: nat, t: Node, path: seq<nat>, n: Node)
    requires Valid(t, path) && path != []
    ensures Violations(a, Graft(t, path, n)) + Count(Bad(a), Under(t, path), 0) == Violations(a, t) + Count(Bad(a), n, 0)
  {
    hide Count, CountF, Violations;
    GraftCount(Bad(a), t, path, n, 0);
    GraftShell(Bad(a), t, path, n, 0);
    Depthless(Bad(a), Under(t, path), DepthAt(t, path, 0), 0);
    Depthless(Bad(a), n, DepthAt(t, path, 0), 0);
    RootViolations(a, t);
    RootViolations(a, Graft(t, path, n));
  }

  lemma PlaceViolations(d: Degree, s: State, act: Action)
    requires Inv(d, s) && Enabled(d, s, act)
    ensures var a, n, p := MinDegree(d), Replacement(d, s, act).node, Under(s.root, Place(s, act));
            var fixed := if Repair(act) then 1 else 0;
            && (Place(s, act) != [] ==> Count(Bad(a), n, 0) + fixed <= Count(Bad(a), p, 0) + Own(Bad(a), n, 0))
            && (Place(s, act) == [] ==> Violations(a, n) + fixed <= Violations(a, p))
  {
    var path, n, a := Place(s, act), Replacement(d, s, act).node, MinDegree(d);
    var p, top, e := Under(s.root, path), path == [], DepthAt(s.root, path, 0);
    PlaceWf(d, s, act);
    DepthPositive(s.root, path);
    Depthless(Bad(a), p, e, 0);
    Depthless(Bad(a), n, e, 0);
    hide Count, CountF, Violations, PutPatch, DelPatch, WeightPatch, DegreePatch, Wf, Under, Graft, DepthAt, SpanAt;
    match act {
      case Put(k, v) =>
        PutOutcome(d, p, k, v, top, s.next, e, 0);
      case Del(k) =>
        DelOutcome(d, p, k, s.next, e, 0);
      case FixWeight(_, ix) =>
        WeightBad(d, p, ix, top, s.next, e);
      case FixDegree(_, ix) =>
        DegreeBad(d, p, ix, top, s.next, e);
    }
  }

  /** A repair removes a violation; the only new one it can leave is at the node it put in place.
      An update leaves no new violation but there. */
  lemma StepViolations(d: Degree, s: State, act: Action)
    requires Inv(d, s) && Enabled(d, s, act)
    ensures var a, n := MinDegree(d), Replacement(d, s, act).node;
            Violations(a, Next(d, s, act).root) + (if Repair(act) then 1 else 0) <=
            Violations(a, s.root) + (if Place(s, act) == [] then 0 else Own(Bad(a), n, 0))
  {
    hide Inv, Count, CountF, Violations, Replacement;
    PlaceViolations(d, s, act);
    if Place(s, act) != [] {
      GraftViolations(MinDegree(d), s.root, Place(s, act), Replacement(d, s, act).node);
    }
  }
}
