/** What the recursive fix-ups of a single thread rely on and achieve. */
module AbDriverProofs {
  import opened AbNodes
  import opened AbOrderProofs
  import opened AbPatches
  import opened AbCountProofs
  import opened AbOutcomes
  import opened AbPaths
  import opened AbSystem
  import opened AbRebalance

  // ----------------------------------------------------- states reached by repairs

  /** s' follows from s by repairs alone. */
  ghost predicate Reached(d: Degree, s: State, s': State) {
    exists run :: RepairRun(d, run) && run[0] == s && run[|run| - 1] == s'
  }

  lemma ReachedSelf(d: Degree, s: State)
    requires Inv(d, s)
    ensures Reached(d, s, s)
  {
    assert RepairRun(d, [s]);
  }

  lemma ReachedStep(d: Degree, s: State, t: State, act: Action)
    requires Reached(d, s, t) && Enabled(d, t, act) && Repair(act)
    ensures Reached(d, s, Next(d, t, act))
  {
    var run :| RepairRun(d, run) && run[0] == s && run[|run| - 1] == t;
    var r, u := run + [Next(d, t, act)], Next(d, t, act);
    assert Repairs(d, t, u);
    forall i | 0 <= i < |r| - 1 ensures Repairs(d, r[i], r[i + 1]) {
      if i < |run| - 1 {
        assert Repairs(d, run[i], run[i + 1]);
      }
    }
    assert RepairRun(d, r);
  }

  lemma ReachedOn(d: Degree, s: State, t: State, u: State)
    requires Reached(d, s, t) && Reached(d, t, u)
    ensures Reached(d, s, u)
  {
    var x :| RepairRun(d, x) && x[0] == s && x[|x| - 1] == t;
    var y :| RepairRun(d, y) && y[0] == t && y[|y| - 1] == u;
    var r := x + y[1..];
    forall i | 0 <= i < |r| - 1 ensures Repairs(d, r[i], r[i + 1]) {
      if i < |x| - 1 {
        assert Repairs(d, x[i], x[i + 1]);
      } else {
        assert Repairs(d, y[i - (|x| - 1)], y[i - (|x| - 1) + 1]);
      }
    }
    assert RepairRun(d, r);
    assert r[|r| - 1] == u;
  }

  /** The snapshot of a node that a thread holds: the node itself as long as it is linked. */
  ghost predicate Known(s: State, x: Node) {
    && x.id < s.next
    && (Linked(s.root, x.id) ==> SameFound(Some(x), Locate(s.root, x.searchKey, x.id)))
  }

  /** What no repair changes: the dictionary; and what repairs only move one way. */
  ghost predicate Kept(d: Degree, s: State, t: State) {
    && Inv(d, t) && s.next <= t.next && s.retired <= t.retired
    && (forall k :: Lookup(t.root, k) == Lookup(s.root, k))
    && (t == s || Lower(MinDegree(d), t.root, s.root, 0))
    && (t.root.id == s.root.id || s.next <= t.root.id)
  }

  lemma KeptOn(d: Degree, s: State, t: State, u: State)
    requires Kept(d, s, t) && Kept(d, t, u)
    ensures Kept(d, s, u)
  {
    hide Inv, Lower, Lookup;
    LowerOn(MinDegree(d), u.root, t.root, s.root);
  }

  lemma {:induction false} RunKeeps(d: Degree, run: seq<State>, i: nat)
    requires RepairRun(d, run) && i < |run|
    ensures Kept(d, run[0], run[i])
  {
    hide Kept, RepairRun, Repairs, Inv, Lower, Lookup;
    if i > 0 {
      RunKeeps(d, run, i - 1);
      RunLink(d, run, i - 1);
      KeptInv(d, run[0], run[i - 1]);
      RepairKeeps(d, run[i - 1], run[i]);
      KeptOn(d, run[0], run[i - 1], run[i]);
    } else {
      RunStart(d, run);
    }
  }

  lemma KeptInv(d: Degree, s: State, t: State)
    requires Kept(d, s, t)
    ensures Inv(d, t)
  {
  }

  lemma RunStart(d: Degree, run: seq<State>)
    requires RepairRun(d, run)
    ensures Inv(d, run[0]) && Kept(d, run[0], run[0])
  {
  }

  lemma RunLink(d: Degree, run: seq<State>, i: nat)
    requires RepairRun(d, run) && i + 1 < |run|
    ensures Repairs(d, run[i], run[i + 1])
  {
  }

  lemma LowerOn(a: nat, x: Node, y: Node, z: Node)
    ensures Lower(a, x, y, 0) && Lower(a, y, z, 0) ==> Lower(a, x, z, 0)
  {
  }

  lemma RepairKeeps(d: Degree, s: State, s': State)
    requires Inv(d, s) && Repairs(d, s, s')
    ensures Kept(d, s, s')
  {
    var act :| Enabled(d, s, act) && Repair(act) && s' == Next(d, s, act);
    StepInv(d, s, act);
    StepLower(d, s, act);
    StepRoot(d, s, act);
    StepUses(d, s, act, 0);
    forall k ensures Lookup(s'.root, k) == Lookup(s.root, k) {
      StepLookup(d, s, act, k);
    }
  }

  lemma ReachedKeeps(d: Degree, s: State, t: State)
    requires Reached(d, s, t)
    ensures Inv(d, t) && s.next <= t.next && s.retired <= t.retired
    ensures forall k :: Lookup(t.root, k) == Lookup(s.root, k)
    ensures t == s || Lower(MinDegree(d), t.root, s.root, 0)
    ensures t.root.id == s.root.id || s.next <= t.root.id
  {
    var run :| RepairRun(d, run) && run[0] == s && run[|run| - 1] == t;
    RunKeeps(d, run, |run| - 1);
  }

  lemma StepKnown(d: Degree, s: State, act: Action, x: Node)
    requires Inv(d, s) && Enabled(d, s, act) && Known(s, x)
    ensures Known(Next(d, s, act), x)
  {
    StepUses(d, s, act, 0);
    if Linked(Next(d, s, act).root, x.id) {
      StepRetires(d, s, act, x.id);
      StepStable(d, s, act, x.searchKey, x.id);
    }
  }

  lemma {:induction false} RunKnown(d: Degree, run: seq<State>, i: nat, x: Node)
    requires RepairRun(d, run) && i < |run| && Known(run[0], x)
    ensures Known(run[i], x)
  {
    hide Known, Kept, RepairRun, Repairs, Inv;
    if i > 0 {
      RunKnown(d, run, i - 1, x);
      RunKeeps(d, run, i - 1);
      RunLink(d, run, i - 1);
      KeptInv(d, run[0], run[i - 1]);
      RepairKnown(d, run[i - 1], run[i], x);
    }
  }

  lemma RepairKnown(d: Degree, s: State, s': State, x: Node)
    requires Inv(d, s) && Repairs(d, s, s') && Known(s, x)
    ensures Known(s', x)
  {
    var act :| Enabled(d, s, act) && Repair(act) && s' == Next(d, s, act);
    StepKnown(d, s, act, x);
  }

  lemma ReachedKnown(d: Degree, s: State, t: State, x: Node)
    requires Reached(d, s, t) && Known(s, x)
    ensures Known(t, x)
  {
    var run :| RepairRun(d, run) && run[0] == s && run[|run| - 1] == t;
    RunKnown(d, run, |run| - 1, x);
  }

  // ------------------------------------------------------------ nodes just read

  /** A node read from the tree is known. */
  lemma ReadKnown(d: Degree, s: State, path: seq<nat>)
    requires Inv(d, s) && Valid(s.root, path)
    ensures Known(s, Under(s.root, path)) && Linked(s.root, Under(s.root, path).id)
  {
    var x := Under(s.root, path);
    OwnCount(Address(x.id), x, DepthAt(s.root, path, 0));
    UnderCount(Address(x.id), s.root, path, 0);
    assert Uses(s, x.id) == Fresh(0, s.next, x.id);
    Locatable(d, s.root, path, Top(s.root));
  }

  /** How many pointers the search for k follows before it meets `id` or a leaf. */
  function Steps(t: Node, k: int, id: nat): nat {
    if t.id == id || t.Leaf? then 0 else
      var i := ChildIndex(t.keys, k);
      if i < |t.kids| then 1 + Steps(t.kids[i], k, id) else 0
  }

  lemma {:induction false} StepsOnPath(t: Node, path: seq<nat>, k: int, depth: nat)
    requires Valid(t, path) && OnSearch(t, k, path)
    requires Count(Address(Under(t, path).id), t, depth) <= 1
    ensures Steps(t, k, Under(t, path).id) == |path|
  {
    if path != [] {
      var i, q := path[0], Address(Under(t, path).id);
      UnderCount(q, t, path, depth);
      OwnCount(q, Under(t, path), DepthAt(t, path, depth));
      ForestPart(q, t.kids, i, depth + t.W());
      StepsOnPath(t.kids[i], path[1..], k, depth + t.W());
    }
  }

  lemma StepsToNode(d: Degree, s: State, path: seq<nat>)
    requires Inv(d, s) && Valid(s.root, path)
    ensures var x := Under(s.root, path); Steps(s.root, x.searchKey, x.id) == |path|
  {
    var x := Under(s.root, path);
    UnderWf(d, s.root, path, Top(s.root));
    RangeOnSearch(d, s.root, path, Top(s.root), x.searchKey);
    assert Uses(s, x.id) == Fresh(0, s.next, x.id);
    StepsOnPath(s.root, path, x.searchKey, 0);
  }

  // ------------------------------------------------------------------ one violation

  /** The tree is strict, or its one violation is the weight of x. */
  ghost predicate WeightFocus(d: Degree, s: State, x: Node) {
    var v := Violations(MinDegree(d), s.root);
    v == 0 || (v == 1 && Linked(s.root, x.id) && !x.weight)
  }

  /** The tree is strict, or its one violation is at x, which is too small. */
  ghost predicate DegreeFocus(d: Degree, s: State, x: Node) {
    var v := Violations(MinDegree(d), s.root);
    v == 0 || (v == 1 && Linked(s.root, x.id) && x.id != s.root.id && x.Size() < MinDegree(d))
  }

  /** Violations at and just below a node other than the root. */
  lemma BadBelow(a: nat, t: Node, path: seq<nat>)
    requires Valid(t, path) && path != []
    ensures Count(Bad(a), Under(t, path), 0) <= Violations(a, t)
    ensures Own(Bad(a), Under(t, path), 0) <= Violations(a, t)
  {
    UnderCount(Bad(a), t, path, 0);
    Depthless(Bad(a), Under(t, path), DepthAt(t, path, 0), 0);
    OwnCount(Bad(a), Under(t, path), 0);
    RootViolations(a, t);
  }

  /** A node and its child, or two of its children, are two violations if both are bad. */
  lemma TwoBad(a: nat, t: Node, path: seq<nat>, i: nat, j: nat)
    requires Valid(t, path) && Under(t, path).Internal? && i < |Under(t, path).kids| && j < |Under(t, path).kids|
    ensures var p := Under(t, path);
            && (path != [] ==> Own(Bad(a), p, 0) + Own(Bad(a), p.kids[i], 0) <= Violations(a, t))
            && (i != j ==> Own(Bad(a), p.kids[i], 0) + Own(Bad(a), p.kids[j], 0) <= Violations(a, t))
            && Own(Bad(a), p.kids[i], 0) <= Violations(a, t)
  {
    var p, q := Under(t, path), Bad(a);
    OwnCount(q, p.kids[i], p.W());
    OwnCount(q, p.kids[j], p.W());
    ForestPart(q, p.kids, i, p.W());
    ForestPart(q, p.kids, j, p.W());
    if i != j {
      TwoKids(q, p.kids, i, j, p.W());
    }
    KidsCount(q, p, 0);
    if path == [] {
      RootViolations(a, t);
    } else {
      BadBelow(a, t, path);
    }
  }

  lemma {:induction false} TwoKids(q: Stat, kids: seq<Node>, i: nat, j: nat, depth: nat)
    requires i < |kids| && j < |kids| && i != j
    ensures Own(q, kids[i], depth) + Own(q, kids[j], depth) <= CountF(q, kids, depth)
  {
    OwnCount(q, kids[i], depth);
    OwnCount(q, kids[j], depth);
    if i == 0 {
      ForestPart(q, kids[1..], j - 1, depth);
    } else if j == 0 {
      ForestPart(q, kids[1..], i - 1, depth);
    } else {
      TwoKids(q, kids[1..], i - 1, j - 1, depth);
    }
  }

  // ------------------------------------------------------------- after one SCX

  lemma {:induction false} Grafted(t: Node, path: seq<nat>, n: Node)
    requires Valid(t, path)
    ensures Valid(Graft(t, path, n), path) && Under(Graft(t, path, n), path) == n
  {
    if path != [] {
      Grafted(t.kids[path[0]], path[1..], n);
    }
  }

  /** The new node is known and linked, and holds the only violation there can be
      where there was at most one before. */
  lemma AfterStep(d: Degree, s: State, act: Action)
    requires Inv(d, s) && Enabled(d, s, act)
    ensures var s', n := Next(d, s, act), Replacement(d, s, act).node;
            && Inv(d, s') && s.next <= s'.next
            && Known(s', n) && Linked(s'.root, n.id)
            && (Place(s, act) != [] ==> n.id != s'.root.id)
            && Violations(MinDegree(d), s'.root) + (if Repair(act) then 1 else 0)
               <= Violations(MinDegree(d), s.root) + (if Place(s, act) == [] then 0 else Own(Bad(MinDegree(d)), n, 0))
  {
    var s', n, path := Next(d, s, act), Replacement(d, s, act).node, Place(s, act);
    StepInv(d, s, act);
    StepViolations(d, s, act);
    StepUses(d, s, act, 0);
    Grafted(s.root, path, n);
    ReadKnown(d, s', path);
    if path != [] {
      OwnCount(Address(s'.root.id), s'.root, 0);
      UnderCount(Address(s'.root.id), s'.root, path, 0);
      OwnCount(Address(n.id), n, DepthAt(s'.root, path, 0));
      assert Uses(s', s'.root.id) == Fresh(0, s'.next, s'.root.id);
    }
  }

  /** The last index of a path leads from the parent to the node. */
  lemma {:induction false} ParentOf(t: Node, path: seq<nat>)
    requires Valid(t, path) && path != []
    ensures var up, ix := path[..|path| - 1], path[|path| - 1];
            && Valid(t, up) && Under(t, up).Internal? && ix < |Under(t, up).kids|
            && Under(t, up).kids[ix] == Under(t, path)
  {
    if |path| > 1 {
      var c, rest := t.kids[path[0]], path[1..];
      ParentOf(c, rest);
      assert path[..|path| - 1][1..] == rest[..|rest| - 1];
    }
  }

  /** Where a node of weight 0 hangs: it is never the root. */
  lemma NotRoot(d: Degree, s: State, path: seq<nat>)
    requires Inv(d, s) && Valid(s.root, path) && (!Under(s.root, path).weight || Under(s.root, path).id != s.root.id)
    ensures path != []
    ensures var up, ix := path[..|path| - 1], path[|path| - 1];
            && Valid(s.root, up) && Under(s.root, up).Internal? && ix < |Under(s.root, up).kids|
            && Under(s.root, up).kids[ix] == Under(s.root, path)
  {
    assert path != [];
    ParentOf(s.root, path);
  }

  /** Two adjacent weight violations: the upper one is nearer to the root, and the tree
      has more than one violation. */
  lemma WeightAbove(d: Degree, s: State, up: seq<nat>, ix: nat)
    requires Inv(d, s) && Valid(s.root, up) && Under(s.root, up).Internal? && ix < |Under(s.root, up).kids|
    requires !Under(s.root, up).weight && !Under(s.root, up).kids[ix].weight
    ensures var p := Under(s.root, up);
            Known(s, p) && Linked(s.root, p.id) && Steps(s.root, p.searchKey, p.id) == |up|
    ensures Violations(MinDegree(d), s.root) >= 2
  {
    TwoBad(MinDegree(d), s.root, up, ix, ix);
    ReadKnown(d, s, up);
    StepsToNode(d, s, up);
  }

  /** The weight repair at l = child ix of p, by the code's guards alone. */
  lemma WeightStep(d: Degree, s: State, path: seq<nat>, ix: nat)
    requires Inv(d, s) && Valid(s.root, path)
    requires var p := Under(s.root, path); p.Internal? && p.weight && ix < |p.kids| && !p.kids[ix].weight
    ensures Enabled(d, s, FixWeight(path, ix))
    ensures var act := FixWeight(path, ix);
            && Next(d, s, act) != s
            && Lower(MinDegree(d), Next(d, s, act).root, s.root, 0)
  {
    UnderWf(d, s.root, path, Top(s.root));
    WeightGuard(d, Under(s.root, path), ix, SpanAt(s.root, path, Top(s.root)));
    StepLower(d, s, FixWeight(path, ix));
    StepUses(d, s, FixWeight(path, ix), 0);
  }

  lemma DegreeStep(d: Degree, s: State, path: seq<nat>, ix: nat)
    requires Inv(d, s) && Valid(s.root, path)
    requires var p := Under(s.root, path);
             && p.Internal? && p.weight && ix < |p.kids| && |p.kids| >= 2
             && p.kids[ix].weight && p.kids[Sibling(ix)].weight && p.kids[ix].Size() < MinDegree(d)
    ensures Enabled(d, s, FixDegree(path, ix))
    ensures var act := FixDegree(path, ix);
            && Next(d, s, act) != s
            && Lower(MinDegree(d), Next(d, s, act).root, s.root, 0)
  {
    UnderWf(d, s.root, path, Top(s.root));
    DegreeGuard(d, Under(s.root, path), ix, SpanAt(s.root, path, Top(s.root)));
    StepLower(d, s, FixDegree(path, ix));
    StepUses(d, s, FixDegree(path, ix), 0);
  }

  /** The merged sibling is linked too, unless it is the new root itself. */
  lemma NewlKnown(d: Degree, s: State, path: seq<nat>, ix: nat)
    requires Inv(d, s) && Enabled(d, s, FixDegree(path, ix))
    requires var p := Under(s.root, path); p.kids[ix].Size() + p.kids[Sibling(ix)].Size() < 2 * MinDegree(d)
    ensures var act, p := FixDegree(path, ix), Under(s.root, path);
            var newl := Joined(p, LeftOf(ix), s.next, p.kids[ix].searchKey);
            && Known(Next(d, s, act), newl) && Linked(Next(d, s, act).root, newl.id)
            && (newl.id != Next(d, s, act).root.id || (path == [] && |p.kids| == 2))
  {
    var act, p := FixDegree(path, ix), Under(s.root, path);
    var s', n, i := Next(d, s, act), Replacement(d, s, act).node, LeftOf(ix);
    StepInv(d, s, act);
    Grafted(s.root, path, n);
    if path == [] && |p.kids| == 2 {
      ReadKnown(d, s', path);
    } else {
      assert n.kids[i] == Joined(p, i, s.next, p.kids[ix].searchKey);
      OwnCount(Address(s.root.id), s.root, 0);
      assert Uses(s, s.root.id) == Fresh(0, s.next, s.root.id);
      JoinedShares(p, i, s.next, p.kids[ix].searchKey);
      Longer(s'.root, path, i);
      ReadKnown(d, s', path + [i]);
    }
  }

  /** The degree repair in the code's own terms: which step, what is retired, how many nodes are new. */
  lemma DegreeReplacement(d: Degree, s: State, up: seq<nat>, ix: nat)
    requires Enabled(d, s, FixDegree(up, ix))
    ensures var p := Under(s.root, up);
            var ids := [p.id, p.kids[ix].id, p.kids[Sibling(ix)].id];
            Replacement(d, s, FixDegree(up, ix)) ==
            if p.kids[ix].Size() + p.kids[Sibling(ix)].Size() < 2 * MinDegree(d)
            then Patch(AbsorbSiblingPatch(d, p, ix, up == [], s.next).node, ids,
                       if up == [] && |p.kids| == 2 then s.next + 1 else s.next + 2)
            else Patch(DistributePatch(d, p, ix, s.next).node, ids, s.next + 3)
    ensures Replacement(d, s, FixDegree(up, ix)).node.weight
  {
  }

  /** The nodes that a degree repair reads are known. */
  lemma ReadAround(d: Degree, s: State, up: seq<nat>, ix: nat)
    requires Inv(d, s) && Valid(s.root, up) && Under(s.root, up).Internal? && ix < |Under(s.root, up).kids|
    ensures var p := Under(s.root, up);
            && Known(s, p) && Linked(s.root, p.id)
            && Known(s, p.kids[ix]) && Linked(s.root, p.kids[ix].id)
            && (|p.kids| >= 2 ==> Known(s, p.kids[Sibling(ix)]) && Linked(s.root, p.kids[Sibling(ix)].id))
            && (!p.weight ==> |p.kids| == 2)
  {
    Neighbours(d, s, up, ix, ix);
    if |Under(s.root, up).kids| >= 2 {
      Neighbours(d, s, up, Sibling(ix), ix);
    }
  }

  /** If the tree has one violation only, and that is at a small node, there is none around it. */
  lemma OnlyHere(d: Degree, s: State, up: seq<nat>, ix: nat)
    requires Inv(d, s) && Valid(s.root, up) && Under(s.root, up).Internal? && ix < |Under(s.root, up).kids|
    requires Under(s.root, up).kids[ix].Size() < MinDegree(d)
    ensures var p := Under(s.root, up);
            Violations(MinDegree(d), s.root) <= 1 ==>
              && p.weight && |p.kids| >= 2 && p.kids[Sibling(ix)].weight
              && (p.kids[ix].weight || WeightFocus(d, s, p.kids[ix]))
  {
    Neighbours(d, s, up, ix, ix);
    if |Under(s.root, up).kids| >= 2 {
      Neighbours(d, s, up, Sibling(ix), ix);
    }
  }

  /** What the fix-ups know about a node and one of its children. */
  lemma Neighbours(d: Degree, s: State, up: seq<nat>, i: nat, j: nat)
    requires Inv(d, s) && Valid(s.root, up) && Under(s.root, up).Internal?
    requires i < |Under(s.root, up).kids| && j < |Under(s.root, up).kids|
    ensures var p, a, v := Under(s.root, up), MinDegree(d), Violations(MinDegree(d), s.root);
            && Known(s, p) && Linked(s.root, p.id)
            && Known(s, p.kids[i]) && Linked(s.root, p.kids[i].id)
            && (!p.weight ==> up != [] && |p.kids| == 2)
            && (up == [] ==> p.weight && |p.kids| >= 2)
            && Own(Bad(a), p.kids[i], 0) <= v
            && (up != [] ==> Own(Bad(a), p, 0) + Own(Bad(a), p.kids[i], 0) <= v)
            && (i != j ==> Own(Bad(a), p.kids[i], 0) + Own(Bad(a), p.kids[j], 0) <= v)
  {
    UnderWf(d, s.root, up, Top(s.root));
    TwoBad(MinDegree(d), s.root, up, i, j);
    ReadKnown(d, s, up);
    Longer(s.root, up, i);
    ReadKnown(d, s, up + [i]);
  }
}
