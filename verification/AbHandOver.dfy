/** Fix-ups of many threads, interleaved: who is responsible for each violation,
    and where responsibility is lost.

    A thread's stack holds the calls it has still to make, next call first. An
    update or a repair pushes the calls that the code makes for the new nodes. */
module AbHandOver {
  import opened AbNodes
  import opened AbPatches
  import opened AbCountProofs
  import opened AbOutcomes
  import opened AbPaths
  import opened AbSystem
  import opened AbRebalance
  import opened AbSizes
  import opened AbMarks
  import Driver = AbDriverProofs
  import Runs = AbRuns

  /** A call of fixWeightViolation or of fixDegreeViolation for the node at this address. */
  datatype Task = WeightCall(id: nat) | DegreeCall(id: nat)

  datatype Work = Work(tree: State, stacks: seq<seq<Task>>, abandoned: set<nat>)

  datatype Move =
    | Update(i: nat, act: Action)
    | Fix(i: nat, act: Action)
    | Drop(i: nat)
    | Help(i: nat, path: seq<nat>, ix: nat)
    | GiveUp(i: nat, path: seq<nat>, ix: nat)

  /** The calls made after a successful SCX, in order. */
  function Calls(d: Degree, s: State, act: Action): seq<Task>
    requires Enabled(d, s, act)
  {
    var p, n := Under(s.root, Place(s, act)), Replacement(d, s, act).node;
    match act
    case Put(k, _) => if !HasKey(p, k) && |p.keys| == d then [WeightCall(n.id)] else [DegreeCall(n.id)]
    case Del(_) => [DegreeCall(n.id)]
    case FixWeight(_, ix) => if |p.kids| + 1 <= d then [DegreeCall(n.id)] else [WeightCall(n.id), DegreeCall(n.id)]
    case FixDegree(path, ix) =>
      if !Absorbs(d, s, act) then [DegreeCall(n.id)]
      else if path == [] && |p.kids| == 2 then [DegreeCall(n.id)]
      else [DegreeCall(Newl(d, s, act).id), DegreeCall(n.id)]
  }

  /** The call has nothing to do: its node is unlinked, or no violation (any more). */
  ghost predicate Settled(d: Degree, t: Node, task: Task) {
    match task
    case WeightCall(id) => !Has(t, id, LightNode)
    case DegreeCall(id) => !Has(t, id, SmallNode(MinDegree(d))) || id == t.id
  }

  /** The thread has found the node of its call as child ix of the node at `path`. */
  ghost predicate Met(d: Degree, s: State, stack: seq<Task>, path: seq<nat>, ix: nat) {
    && stack != [] && Valid(s.root, path) && Under(s.root, path).Internal? && ix < |Under(s.root, path).kids|
    && var l := Under(s.root, path).kids[ix];
       (stack[0] == WeightCall(l.id) && !l.weight) || (stack[0] == DegreeCall(l.id) && l.Size() < MinDegree(d))
  }

  /** The calls for weight violations that come first: at the parent, and for a degree violation
      also at the node itself and at its sibling. */
  function Helpers(p: Node, ix: nat, forDegree: bool): seq<Task>
    requires p.Internal? && ix < |p.kids|
  {
    (if !p.weight then [WeightCall(p.id)] else [])
    + (if forDegree && !p.kids[ix].weight then [WeightCall(p.kids[ix].id)] else [])
    + (if forDegree && |p.kids| >= 2 && !p.kids[Sibling(ix)].weight then [WeightCall(p.kids[Sibling(ix)].id)] else [])
  }

  ghost predicate Can(d: Degree, w: Work, mv: Move) {
    && mv.i < |w.stacks|
    && var s, stack := w.tree, w.stacks[mv.i];
       match mv
       case Update(_, act) => stack == [] && !Repair(act) && Enabled(d, s, act)
       case Fix(_, act) =>
         && Repair(act) && Enabled(d, s, act) && stack != []
         && stack[0] == (if act.FixWeight? then WeightCall(Under(s.root, act.path).kids[act.ix].id)
                         else DegreeCall(Under(s.root, act.path).kids[act.ix].id))
       case Drop(_) => stack != [] && Settled(d, s.root, stack[0])
       case Help(_, path, ix) =>
         && Met(d, s, stack, path, ix)
         && (stack[0].DegreeCall? ==> |Under(s.root, path).kids| >= 2)
         && Helpers(Under(s.root, path), ix, stack[0].DegreeCall?) != []
       case GiveUp(_, path, ix) =>
         Met(d, s, stack, path, ix) && stack[0].DegreeCall? && |Under(s.root, path).kids| == 1
  }

  function SetStack(w: Work, i: nat, stack: seq<Task>): Work
    requires i < |w.stacks|
  {
    w.(stacks := w.stacks[i := stack])
  }

  /** GiveUp is the return of the code at a parent with one child: whatever weight violations it saw
      are fixed, and then the call ends. */
  function After(d: Degree, w: Work, mv: Move): Work
    requires Can(d, w, mv)
  {
    var s, stack := w.tree, w.stacks[mv.i];
    match mv
    case Update(i, act) => SetStack(w, i, Calls(d, s, act)).(tree := Next(d, s, act))
    case Fix(i, act) => SetStack(w, i, Calls(d, s, act) + stack[1..]).(tree := Next(d, s, act))
    case Drop(i) => SetStack(w, i, stack[1..])
    case Help(i, path, ix) => SetStack(w, i, Helpers(Under(s.root, path), ix, stack[0].DegreeCall?) + stack)
    case GiveUp(i, path, ix) =>
      var p := Under(s.root, path);
      SetStack(w, i, Helpers(p, ix, true) + stack[1..])
      .(abandoned := w.abandoned + if p.kids[ix].weight then {p.kids[ix].id} else {})
  }

  // -------------------------------------------------------------- responsibility

  ghost predicate Owed(w: Work, task: Task) {
    exists i :: 0 <= i < |w.stacks| && task in w.stacks[i]
  }

  /** A weight violation is some thread's task; so is a degree violation of weight 1 below the root,
      unless it has been abandoned. */
  ghost predicate InCharge(d: Degree, w: Work, id: nat) {
    && (Has(w.tree.root, id, LightNode) ==> Owed(w, WeightCall(id)))
    && (Has(w.tree.root, id, ThinNode(MinDegree(d))) && id != w.tree.root.id ==>
          Owed(w, DegreeCall(id)) || id in w.abandoned)
  }

  ghost predicate HandInv(d: Degree, w: Work) {
    && Inv(d, w.tree)
    && (forall id: nat :: InCharge(d, w, id))
    && (forall id :: id in w.abandoned ==> id < w.tree.next && id != w.tree.root.id)
  }

  /** What was owed is owed still, except the call that was at the top of the stack. */
  lemma OwedStill(d: Degree, w: Work, mv: Move, task: Task)
    requires Can(d, w, mv) && Owed(w, task)
    requires mv.Update? || mv.Help? || (w.stacks[mv.i] != [] && task != w.stacks[mv.i][0])
    ensures Owed(After(d, w, mv), task)
  {
    hide Enabled, Next, Met, Settled, Calls, Helpers;
    var i, stack, w' := mv.i, w.stacks[mv.i], After(d, w, mv);
    if task in stack {
      assert !mv.Update?;
      assert mv.Help? || stack == [stack[0]] + stack[1..];
      if mv.Help? {
        assert task in w'.stacks[i];
      } else {
        assert task in stack[1..];
        assert task in w'.stacks[i];
      }
    } else {
      var j :| 0 <= j < |w.stacks| && task in w.stacks[j];
      assert task in w'.stacks[j];
    }
  }

  /** The calls cover whatever violation is at the new nodes; a new root has none. And no call is made for
      any other node. */
  lemma CallsCover(d: Degree, s: State, act: Action)
    requires Inv(d, s) && Enabled(d, s, act)
    ensures var n, calls := Replacement(d, s, act).node, Calls(d, s, act);
            && (!n.weight ==> WeightCall(n.id) in calls)
            && (n.weight ==> DegreeCall(n.id) in calls || Next(d, s, act).root.id == n.id)
            && (Absorbs(d, s, act) ==> DegreeCall(Newl(d, s, act).id) in calls)
    ensures var n := Replacement(d, s, act).node;
            forall task :: task in Calls(d, s, act) ==>
              || task == DegreeCall(n.id)
              || (task == WeightCall(n.id) && (!n.weight || Place(s, act) == []))
              || (Absorbs(d, s, act) && task == DegreeCall(Newl(d, s, act).id))
  {
    hide Joined, CutLeft, CutRight, CutKey, Inv;
    PlaceWf(d, s, act);
    NewIds(d, s, act);
  }

  lemma NewTask(d: Degree, w: Work, mv: Move, task: Task)
    requires Can(d, w, mv) && (mv.Update? || mv.Fix?) && task in Calls(d, w.tree, mv.act)
    ensures Owed(After(d, w, mv), task)
  {
    hide Calls, Enabled, Next;
    assert task in After(d, w, mv).stacks[mv.i];
  }

  lemma StillLinked(t: Node, id: nat, m: Mark)
    requires Has(t, id, m)
    ensures Linked(t, id)
  {
    MarkedIsLinked(t, id, m, 0);
  }

  /** The root stays the root, or is unlinked. */
  lemma RootStays(d: Degree, s: State, act: Action)
    requires Inv(d, s) && Enabled(d, s, act) && Linked(Next(d, s, act).root, s.root.id)
    ensures Next(d, s, act).root.id == s.root.id
  {
    StepRetires(d, s, act, s.root.id);
    if Place(s, act) == [] {
      RetiresPlace(d, s, act);
    }
  }

  lemma RetiresPlace(d: Degree, s: State, act: Action)
    requires Enabled(d, s, act)
    ensures Under(s.root, Place(s, act)).id in Replacement(d, s, act).retired
    ensures act.FixWeight? || act.FixDegree? ==> Under(s.root, act.path).kids[act.ix].id in Replacement(d, s, act).retired
  {
    hide Joined, CutLeft, CutRight, CutKey, Inserted, Merged;
  }

  /** The call at the top of the stack was for a node that the repair has unlinked. */
  lemma TopIsGone(d: Degree, w: Work, mv: Move, id: nat)
    requires HandInv(d, w) && Can(d, w, mv) && (mv.Update? || mv.Fix?) && Linked(Next(d, w.tree, mv.act).root, id)
    ensures mv.Fix? ==> w.stacks[mv.i] != [] && w.stacks[mv.i][0] != WeightCall(id) && w.stacks[mv.i][0] != DegreeCall(id)
  {
    if mv.Fix? {
      RetiresPlace(d, w.tree, mv.act);
      StepRetires(d, w.tree, mv.act, id);
    }
  }

  /** An older violation keeps the calls that there were for it. */
  lemma OldCharge(d: Degree, w: Work, mv: Move, id: nat)
    requires HandInv(d, w) && Can(d, w, mv) && (mv.Update? || mv.Fix?)
    ensures var t, t' := w.tree.root, After(d, w, mv).tree.root;
            && (Has(t, id, LightNode) && Linked(t', id) ==> Owed(After(d, w, mv), WeightCall(id)))
            && (Has(t, id, ThinNode(MinDegree(d))) && Linked(t', id) && id != t'.id ==>
                  Owed(After(d, w, mv), DegreeCall(id)) || id in After(d, w, mv).abandoned)
  {
    hide Calls, Replacement, Has, Owed, Inv, Enabled, Linked;
    assert InCharge(d, w, id);
    if Linked(Next(d, w.tree, mv.act).root, id) {
      TopIsGone(d, w, mv, id);
      if id == w.tree.root.id {
        RootStays(d, w.tree, mv.act);
      }
      if Owed(w, WeightCall(id)) {
        OwedStill(d, w, mv, WeightCall(id));
      }
      if Owed(w, DegreeCall(id)) {
        OwedStill(d, w, mv, DegreeCall(id));
      }
    }
  }

  /** Where the tree has changed: violations at new nodes are covered by the new calls, older ones by
      the calls there were. */
  lemma TreeStep(d: Degree, w: Work, mv: Move, id: nat)
    requires HandInv(d, w) && Can(d, w, mv) && (mv.Update? || mv.Fix?)
    ensures InCharge(d, After(d, w, mv), id)
  {
    hide Calls, Replacement, Newl, Absorbs, Has, Owed, Inv, Linked;
    var s, act, w' := w.tree, mv.act, After(d, w, mv);
    StepMarks(d, s, act, id, LightNode);
    StepMarks(d, s, act, id, ThinNode(MinDegree(d)));
    CallsCover(d, s, act);
    NewIds(d, s, act);
    OldCharge(d, w, mv, id);
    if Has(w'.tree.root, id, LightNode) {
      StillLinked(w'.tree.root, id, LightNode);
      if WeightCall(id) in Calls(d, s, act) {
        NewTask(d, w, mv, WeightCall(id));
      }
    }
    if Has(w'.tree.root, id, ThinNode(MinDegree(d))) {
      StillLinked(w'.tree.root, id, ThinNode(MinDegree(d)));
      if DegreeCall(id) in Calls(d, s, act) {
        NewTask(d, w, mv, DegreeCall(id));
      }
    }
  }

  /** Where only the stacks change: a call that is dropped had nothing to do, or its node is abandoned. */
  lemma StackStep(d: Degree, w: Work, mv: Move, id: nat)
    requires HandInv(d, w) && Can(d, w, mv) && !mv.Update? && !mv.Fix?
    ensures InCharge(d, After(d, w, mv), id)
  {
    hide Has, Inv, Enabled, Owed;
    var t, top := w.tree.root, w.stacks[mv.i][0];
    assert InCharge(d, w, id);
    if Owed(w, WeightCall(id)) && (mv.Help? || top != WeightCall(id)) {
      OwedStill(d, w, mv, WeightCall(id));
    }
    if Owed(w, DegreeCall(id)) && (mv.Help? || top != DegreeCall(id)) {
      OwedStill(d, w, mv, DegreeCall(id));
    }
    if mv.Drop? && top == DegreeCall(id) {
      SmallIfThin(t, id, MinDegree(d));
    }
    if mv.GiveUp? && top == DegreeCall(id) {
      GaveUp(d, w, mv);
    }
  }

  lemma SmallIfThin(t: Node, id: nat, a: nat)
    ensures Has(t, id, ThinNode(a)) ==> Has(t, id, SmallNode(a))
  {
    ThinIsSmall(t, id, a, 0);
  }

  /** A node given up is recorded as abandoned, or still has its weight to be fixed first. */
  lemma GaveUp(d: Degree, w: Work, mv: Move)
    requires HandInv(d, w) && Can(d, w, mv) && mv.GiveUp?
    ensures var l := Under(w.tree.root, mv.path).kids[mv.ix];
            l.id in After(d, w, mv).abandoned || !Has(w.tree.root, l.id, ThinNode(MinDegree(d)))
  {
    var t, l := w.tree.root, Under(w.tree.root, mv.path).kids[mv.ix];
    if !l.weight && Has(t, l.id, ThinNode(MinDegree(d))) {
      var x := MarkedPlace(t, l.id, ThinNode(MinDegree(d)), 0);
      Longer(t, mv.path, mv.ix);
      assert Uses(w.tree, l.id) == Fresh(0, w.tree.next, l.id);
      Runs.OnePlace(t, x, mv.path + [mv.ix], 0);
    }
  }

  /** An abandoned node was not the root, and never will be. */
  lemma StepAbandoned(d: Degree, w: Work, mv: Move)
    requires HandInv(d, w) && Can(d, w, mv)
    ensures var w' := After(d, w, mv); forall id :: id in w'.abandoned ==> id < w'.tree.next && id != w'.tree.root.id
  {
    hide InCharge, Enabled, Calls, Helpers, Replacement, Owed;
    if mv.Update? || mv.Fix? {
      StepRoot(d, w.tree, mv.act);
      StepUses(d, w.tree, mv.act, 0);
    } else if mv.GiveUp? {
      KidIsOld(d, w.tree, mv.path, mv.ix);
    }
  }

  lemma KidIsOld(d: Degree, s: State, path: seq<nat>, ix: nat)
    requires Inv(d, s) && Valid(s.root, path) && Under(s.root, path).Internal? && ix < |Under(s.root, path).kids|
    ensures var l := Under(s.root, path).kids[ix]; l.id < s.next && l.id != s.root.id
  {
    var l := Under(s.root, path).kids[ix];
    Longer(s.root, path, ix);
    BelowRoot(d, s, path + [ix]);
  }

  /** A node below the root has an address of its own. */
  lemma BelowRoot(d: Degree, s: State, path: seq<nat>)
    requires Inv(d, s) && Valid(s.root, path) && path != []
    ensures Under(s.root, path).id != s.root.id && Under(s.root, path).id < s.next && Linked(s.root, Under(s.root, path).id)
  {
    var x := Under(s.root, path);
    Runs.LinkedAt(s.root, path);
    Runs.AddressState(d, s, x.id);
    if x.id == s.root.id {
      Runs.OnePlace(s.root, path, [], 0);
    }
  }

  /** Every step of every thread leaves each violation in somebody's charge, or abandoned. */
  lemma StepHand(d: Degree, w: Work, mv: Move)
    requires HandInv(d, w) && Can(d, w, mv)
    ensures HandInv(d, After(d, w, mv))
  {
    StepAbandoned(d, w, mv);
    hide InCharge, Inv, Enabled, Calls, Helpers, Replacement;
    if mv.Update? || mv.Fix? {
      StepInv(d, w.tree, mv.act);
    }
    forall id: nat ensures InCharge(d, After(d, w, mv), id) {
      if mv.Update? || mv.Fix? {
        TreeStep(d, w, mv, id);
      } else {
        StackStep(d, w, mv, id);
      }
    }
  }

  // ------------------------------------------------------------------- every run

  /** n threads at an empty tree. */
  function Start(n: nat, anyKey: int): Work {
    Work(Initial(anyKey), seq(n, _ => []), {})
  }

  ghost predicate Moves(d: Degree, w: Work, w': Work) {
    exists mv :: Can(d, w, mv) && w' == After(d, w, mv)
  }

  ghost predicate WorkRun(d: Degree, n: nat, r: seq<Work>) {
    && r != []
    && (exists anyKey :: r[0] == Start(n, anyKey))
    && forall i :: 0 <= i < |r| - 1 ==> Moves(d, r[i], r[i + 1])
  }

  lemma {:induction false} RunHand(d: Degree, n: nat, r: seq<Work>, i: nat)
    requires WorkRun(d, n, r) && i < |r|
    ensures HandInv(d, r[i])
  {
    hide HandInv;
    if i == 0 {
      var anyKey :| r[0] == Start(n, anyKey);
      StartHand(d, n, anyKey);
    } else {
      RunHand(d, n, r, i - 1);
      assert Moves(d, r[i - 1], r[i]);
      var mv :| Can(d, r[i - 1], mv) && r[i] == After(d, r[i - 1], mv);
      StepHand(d, r[i - 1], mv);
    }
  }

  lemma StartHand(d: Degree, n: nat, anyKey: int)
    ensures HandInv(d, Start(n, anyKey))
  {
    InitialInv(d, anyKey);
  }

  /** In every state of every run, whatever the interleaving: a node of weight 0 is the subject of a
      call that some thread has still to make, and so is a node below the root with weight 1 and fewer than
      a entries, unless it has been abandoned. */
  lemma EveryViolationInCharge(d: Degree, n: nat, r: seq<Work>, i: nat, path: seq<nat>)
    requires WorkRun(d, n, r) && i < |r| && Valid(r[i].tree.root, path) && path != []
    ensures var x := Under(r[i].tree.root, path);
            && (!x.weight ==> Owed(r[i], WeightCall(x.id)))
            && (x.weight && x.Size() < MinDegree(d) ==> Owed(r[i], DegreeCall(x.id)) || x.id in r[i].abandoned)
  {
    RunHand(d, n, r, i);
    var t, x := r[i].tree.root, Under(r[i].tree.root, path);
    BelowRoot(d, r[i].tree, path);
    assert InCharge(d, r[i], x.id);
    if !x.weight {
      MarkedAt(t, path, LightNode);
    } else if x.Size() < MinDegree(d) {
      MarkedAt(t, path, ThinNode(MinDegree(d)));
    }
  }

  /** Before a thread repairs, or gives up, it has the weight violations repaired that it met: of the parent,
      and for a degree violation also of the node and its sibling. */
  lemma HelpsFirst(d: Degree, w: Work, mv: Move, task: Task)
    requires Can(d, w, mv) && (mv.Help? || mv.GiveUp?)
    requires var p, forDegree := Under(w.tree.root, mv.path), w.stacks[mv.i][0].DegreeCall?;
             || (!p.weight && task == WeightCall(p.id))
             || (forDegree && !p.kids[mv.ix].weight && task == WeightCall(p.kids[mv.ix].id))
             || (forDegree && |p.kids| >= 2 && !p.kids[Sibling(mv.ix)].weight && task == WeightCall(p.kids[Sibling(mv.ix)].id))
    ensures mv.i < |After(d, w, mv).stacks|
    ensures var rest, stack := if mv.Help? then w.stacks[mv.i] else w.stacks[mv.i][1..], After(d, w, mv).stacks[mv.i];
            |rest| < |stack| && stack[|stack| - |rest|..] == rest && task in stack[..|stack| - |rest|]
  {
    hide Enabled, Settled, Next;
    var p := Under(w.tree.root, mv.path);
    var front := Helpers(p, mv.ix, w.stacks[mv.i][0].DegreeCall?);
    var rest := if mv.Help? then w.stacks[mv.i] else w.stacks[mv.i][1..];
    assert After(d, w, mv).stacks[mv.i] == front + rest;
    assert task in front;
  }

  /** The node with this address has weight 1, too few entries, and is the only child of its parent. */
  ghost predicate Alone(d: Degree, t: Node, id: nat) {
    exists path :: AloneAt(d, t, id, path)
  }

  ghost predicate AloneAt(d: Degree, t: Node, id: nat, path: seq<nat>) {
    && Valid(t, path) && Under(t, path).Internal? && |Under(t, path).kids| == 1
    && var l := Under(t, path).kids[0]; l.id == id && l.weight && (l.Size() < 2 || 4 * (l.Size() + 1) <= d)
  }

  lemma StepAlone(d: Degree, w: Work, mv: Move, id: nat)
    requires Can(d, w, mv) && id in After(d, w, mv).abandoned && id !in w.abandoned
    ensures Alone(d, w.tree.root, id)
  {
    hide Enabled, Settled, Helpers, Calls, Next;
    var l := Under(w.tree.root, mv.path).kids[mv.ix];
    TooSmall(d, l.Size());
    assert AloneAt(d, w.tree.root, id, mv.path);
  }

  /** A node is abandoned only if it was met, at some moment of the run, alone under its parent. */
  lemma {:induction false} AbandonedAlone(d: Degree, n: nat, r: seq<Work>, i: nat, id: nat) returns (j: nat)
    requires WorkRun(d, n, r) && i < |r| && id in r[i].abandoned
    ensures j < i && Alone(d, r[j].tree.root, id)
  {
    hide Can, After, Alone;
    assert i > 0;
    assert Moves(d, r[i - 1], r[i]);
    if id in r[i - 1].abandoned {
      j := AbandonedAlone(d, n, r, i - 1, id);
    } else {
      j := i - 1;
      var mv :| Can(d, r[i - 1], mv) && r[i] == After(d, r[i - 1], mv);
      StepAlone(d, r[i - 1], mv, id);
    }
  }

  // ------------------------------------------------------------- when all is done

  /** No thread has a call to make. */
  predicate Quiet(w: Work) {
    forall i :: 0 <= i < |w.stacks| ==> w.stacks[i] == []
  }

  /** An abandoned node is still in the tree, and still too small. */
  ghost predicate LeftOver(d: Degree, w: Work, id: nat) {
    id in w.abandoned && Has(w.tree.root, id, ThinNode(MinDegree(d)))
  }

  lemma {:induction false} BadNode(a: nat, kids: seq<Node>, depth: nat) returns (id: nat)
    requires CountF(Bad(a), kids, depth) > 0
    ensures CountF(Marked(id, LightNode), kids, depth) > 0 || CountF(Marked(id, ThinNode(a)), kids, depth) > 0
    decreases kids
  {
    var t := kids[0];
    if Own(Bad(a), t, depth) > 0 {
      id := t.id;
    } else if t.Internal? && CountF(Bad(a), t.kids, depth + t.W()) > 0 {
      id := BadNode(a, t.kids, depth + t.W());
    } else {
      id := BadNode(a, kids[1..], depth);
    }
  }

  lemma {:induction false} ThinIsBad(a: nat, kids: seq<Node>, id: nat, depth: nat)
    ensures CountF(Marked(id, ThinNode(a)), kids, depth) <= CountF(Bad(a), kids, depth)
    decreases kids
  {
    if kids != [] {
      ThinIsBad(a, kids[1..], id, depth);
      if kids[0].Internal? {
        ThinIsBad(a, kids[0].kids, id, depth + kids[0].W());
      }
    }
  }

  /** What is marked below the root is marked in the tree, at another address than the root's. */
  lemma KidsMark(d: Degree, s: State, id: nat, m: Mark)
    requires Inv(d, s)
    ensures CountF(Marked(id, m), s.root.Kids(), 0) > 0 ==> Has(s.root, id, m) && id != s.root.id
    ensures Has(s.root, id, m) && id != s.root.id ==> CountF(Marked(id, m), s.root.Kids(), 0) > 0
  {
    var q, t := Marked(id, m), s.root;
    KidsCount(q, t, 0);
    CountDeeper(q, t.Kids(), 0, t.W());
    MarkedInForest(t.Kids(), id, m, t.W());
    KidsCount(Address(id), t, 0);
    Runs.AddressState(d, s, id);
  }

  /** When nothing is pending, the tree is strict exactly if no abandoned node is left in it. */
  lemma QuietStrict(d: Degree, w: Work)
    requires HandInv(d, w) && Quiet(w)
    ensures Strict(d, w.tree.root) <==> forall id :: !LeftOver(d, w, id)
  {
    var t, a := w.tree.root, MinDegree(d);
    if !Strict(d, t) {
      var id := BadNode(a, t.Kids(), 0);
      KidsMark(d, w.tree, id, LightNode);
      KidsMark(d, w.tree, id, ThinNode(a));
      assert InCharge(d, w, id);
      assert LeftOver(d, w, id);
    }
    if id :| LeftOver(d, w, id) {
      KidsMark(d, w.tree, id, ThinNode(a));
      ThinIsBad(a, t.Kids(), id, 0);
    }
  }

  /** The promise holds for every run in which no call met its node alone under its parent. */
  lemma HandedOver(d: Degree, n: nat, r: seq<Work>, i: nat)
    requires WorkRun(d, n, r) && i < |r| && Quiet(r[i])
    ensures r[i].abandoned == {} ==> Strict(d, r[i].tree.root)
    ensures Strict(d, r[i].tree.root) <==> forall id :: !LeftOver(d, r[i], id)
  {
    RunHand(d, n, r, i);
    QuietStrict(d, r[i]);
  }

  // -------------------------------------------------------------------- progress

  /** A thread with a call to make can always take its next step. */
  lemma NeverStuck(d: Degree, w: Work, i: nat) returns (mv: Move)
    requires HandInv(d, w) && i < |w.stacks| && w.stacks[i] != []
    ensures Can(d, w, mv) && mv.i == i && !mv.Update?
  {
    hide InCharge, Inv, Enabled, Next, Lower;
    var s, task, t := w.tree, w.stacks[i][0], w.tree.root;
    mv := Drop(i);
    if !Settled(d, t, task) {
      var path := MarkedPlace(t, task.id, if task.WeightCall? then LightNode else SmallNode(MinDegree(d)), 0);
      Driver.NotRoot(d, s, path);
      var up, ix := path[..|path| - 1], path[|path| - 1];
      var p := Under(t, up);
      if task.WeightCall? {
        mv := if p.weight then Fix(i, FixWeight(up, ix)) else Help(i, up, ix);
        if p.weight {
          Driver.WeightStep(d, s, up, ix);
        }
      } else if |p.kids| == 1 {
        mv := GiveUp(i, up, ix);
      } else if Helpers(p, ix, true) != [] {
        mv := Help(i, up, ix);
      } else {
        mv := Fix(i, FixDegree(up, ix));
        SomeKids(d, s, up);
        Driver.DegreeStep(d, s, up, ix);
      }
    }
  }

  lemma SomeKids(d: Degree, s: State, path: seq<nat>)
    requires Inv(d, s) && Valid(s.root, path) && Under(s.root, path).Internal?
    ensures |Under(s.root, path).kids| >= 1
  {
    UnderWf(d, s.root, path, Top(s.root));
  }
}
