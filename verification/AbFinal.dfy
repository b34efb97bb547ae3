/** Which removed nodes are finalized: the internal ones, and no others. */
module AbFinal {
  import opened AbNodes
  import opened AbPatches
  import opened AbOutcomes
  import opened AbPaths
  import opened AbSystem
  import opened AbMarks
  import Runs = AbRuns

  /** What the SCX of a step finalizes. Leaves are immutable and left out. */
  function Finalizes(d: Degree, s: State, act: Action): set<nat>
    requires Enabled(d, s, act)
  {
    match act
    case FixWeight(path, ix) => {Under(s.root, path).id, Under(s.root, path).kids[ix].id}
    case FixDegree(path, ix) =>
      var p := Under(s.root, path);
      if p.kids[ix].Leaf? then {p.id} else {p.id, p.kids[ix].id, p.kids[Sibling(ix)].id}
    case _ => {}
  }

  /** `leaves` are the addresses that were given to leaves so far. */
  ghost predicate Kinds(s: State, leaves: set<nat>) {
    forall id: nat ::
      && (Has(s.root, id, LeafNode) ==> id in leaves)
      && (Has(s.root, id, InnerNode) ==> id !in leaves)
      && (id in leaves ==> id < s.next)
  }

  /** Finalized means removed and internal. */
  ghost predicate Finals(s: State, leaves: set<nat>, finalized: set<nat>) {
    forall id: nat :: id in finalized <==> id in s.retired && id !in leaves
  }

  /** The new addresses that went to leaves. */
  ghost function NewLeaves(n: Node, lo: nat, hi: nat): set<nat> {
    set id | lo <= id < hi && Has(n, id, LeafNode)
  }

  lemma InitialKinds(anyKey: int)
    ensures Kinds(Initial(anyKey), {0}) && Finals(Initial(anyKey), {0}, {})
  {
  }

  /** The new address is nowhere in the old tree, so it bears in the new tree what it bears in the new node. */
  lemma NewMark(d: Degree, s: State, act: Action, id: nat, m: Mark)
    requires Inv(d, s) && Enabled(d, s, act) && id >= s.next
    ensures Has(Next(d, s, act).root, id, m) <==> Has(Replacement(d, s, act).node, id, m)
  {
    var q, path, n := Marked(id, m), Place(s, act), Replacement(d, s, act).node;
    var e := DepthAt(s.root, path, 0);
    GraftCount(q, s.root, path, n, 0);
    UnderCount(q, s.root, path, 0);
    MarkedIsLinked(s.root, id, m, 0);
    Runs.AddressState(d, s, id);
    Depthless(q, n, e, 0);
  }

  lemma KindsAt(d: Degree, s: State, act: Action, leaves: set<nat>, id: nat)
    requires Inv(d, s) && Enabled(d, s, act) && Kinds(s, leaves)
    ensures var s' := Next(d, s, act);
            var leaves' := leaves + NewLeaves(Replacement(d, s, act).node, s.next, s'.next);
            && (Has(s'.root, id, LeafNode) ==> id in leaves')
            && (Has(s'.root, id, InnerNode) ==> id !in leaves')
            && (id in leaves' ==> id < s'.next)
  {
    hide Has, Replacement, Enabled, Inv;
    var s' := Next(d, s, act);
    StepUses(d, s, act, id);
    if id < s.next {
      StepMarks(d, s, act, id, LeafNode);
      StepMarks(d, s, act, id, InnerNode);
    } else {
      NewMark(d, s, act, id, LeafNode);
      NewMark(d, s, act, id, InnerNode);
      OneKind(d, s, act, id);
    }
  }

  /** A linked address is in use, and its node is not of both kinds. */
  lemma OneKind(d: Degree, s: State, act: Action, id: nat)
    requires Inv(d, s) && Enabled(d, s, act)
    ensures var s' := Next(d, s, act);
            && !(Has(s'.root, id, LeafNode) && Has(s'.root, id, InnerNode))
            && (Has(s'.root, id, LeafNode) ==> id < s'.next)
  {
    StepInv(d, s, act);
    Runs.AddressState(d, Next(d, s, act), id);
    LeafOrInner(Next(d, s, act).root, id, 0);
  }

  lemma StepKinds(d: Degree, s: State, act: Action, leaves: set<nat>)
    requires Inv(d, s) && Enabled(d, s, act) && Kinds(s, leaves)
    ensures var s' := Next(d, s, act); Kinds(s', leaves + NewLeaves(Replacement(d, s, act).node, s.next, s'.next))
  {
    hide Inv, Enabled, Replacement, Has;
    var s' := Next(d, s, act);
    var leaves' := leaves + NewLeaves(Replacement(d, s, act).node, s.next, s'.next);
    forall id: nat
      ensures Has(s'.root, id, LeafNode) ==> id in leaves'
      ensures Has(s'.root, id, InnerNode) ==> id !in leaves'
      ensures id in leaves' ==> id < s'.next
    {
      KindsAt(d, s, act, leaves, id);
    }
  }

  /** The node at a place is a leaf just when its address is one of a leaf. */
  lemma KindAt(s: State, path: seq<nat>, leaves: set<nat>)
    requires Valid(s.root, path) && Kinds(s, leaves)
    ensures Under(s.root, path).id in leaves <==> Under(s.root, path).Leaf?
  {
    hide Has;
    MarkedAt(s.root, path, if Under(s.root, path).Leaf? then LeafNode else InnerNode);
  }

  lemma KidKind(s: State, path: seq<nat>, i: nat, leaves: set<nat>)
    requires Valid(s.root, path) && Kinds(s, leaves)
    requires Under(s.root, path).Internal? && i < |Under(s.root, path).kids|
    ensures var c := Under(s.root, path).kids[i]; c.id in leaves <==> c.Leaf?
  {
    Longer(s.root, path, i);
    KindAt(s, path + [i], leaves);
  }

  /** Of the addresses that a step retires, it finalizes exactly those of internal nodes. */
  lemma FinalizesInner(d: Degree, s: State, act: Action, leaves: set<nat>, id: nat)
    requires Inv(d, s) && Enabled(d, s, act) && Kinds(s, leaves)
    ensures id in Finalizes(d, s, act) <==> id in Replacement(d, s, act).retired && id !in leaves
  {
    hide Kinds, Inv, Joined, Merged, CutLeft, CutRight, CutKey, Inserted;
    var path := Place(s, act);
    KindAt(s, path, leaves);
    match act
    case FixWeight(_, ix) =>
      KidKind(s, path, ix, leaves);
    case FixDegree(_, ix) =>
      KidKind(s, path, ix, leaves);
      KidKind(s, path, Sibling(ix), leaves);
    case _ =>
  }

  lemma StepFinals(d: Degree, s: State, act: Action, leaves: set<nat>, finalized: set<nat>)
    requires Inv(d, s) && Enabled(d, s, act) && Kinds(s, leaves) && Finals(s, leaves, finalized)
    ensures var s' := Next(d, s, act);
            Finals(s', leaves + NewLeaves(Replacement(d, s, act).node, s.next, s'.next), finalized + Finalizes(d, s, act))
  {
    hide Inv, Enabled, Kinds, Has, Finalizes;
    var s', n := Next(d, s, act), Replacement(d, s, act).node;
    forall id: nat
      ensures id in finalized + Finalizes(d, s, act) <==>
              id in s'.retired && id !in leaves + NewLeaves(n, s.next, s'.next)
    {
      FinalizesInner(d, s, act, leaves, id);
      RetiredIsOld(d, s, act, id);
    }
  }

  lemma RetiredIsOld(d: Degree, s: State, act: Action, id: nat)
    requires Inv(d, s) && Enabled(d, s, act)
    ensures id in Replacement(d, s, act).retired || id in s.retired ==> id < s.next
  {
    if id in Replacement(d, s, act).retired {
      RetiredWasLinked(d, s, act, id);
    }
    assert Uses(s, id) == Fresh(0, s.next, id);
  }

  // -------------------------------------------------------------------- all runs

  /** A run with the steps taken, by whatever threads. */
  ghost predicate Taken(d: Degree, r: seq<State>, acts: seq<Action>) {
    && |r| == |acts| + 1
    && (exists anyKey :: r[0] == Initial(anyKey))
    && forall m :: 0 <= m < |acts| ==> Enabled(d, r[m], acts[m]) && r[m + 1] == Next(d, r[m], acts[m])
  }

  lemma TakenAt(d: Degree, r: seq<State>, acts: seq<Action>, m: nat)
    requires Taken(d, r, acts) && m < |acts|
    ensures Enabled(d, r[m], acts[m]) && r[m + 1] == Next(d, r[m], acts[m])
  {
  }

  lemma TakenRun(d: Degree, r: seq<State>, acts: seq<Action>)
    requires Taken(d, r, acts)
    ensures Runs.Run(d, r)
  {
    hide Enabled, Next;
    forall i | 0 <= i < |r| - 1 ensures Runs.Steps(d, r[i], r[i + 1]) {
      TakenAt(d, r, acts, i);
    }
  }

  /** The addresses given to leaves up to state i. */
  ghost function LeavesAt(d: Degree, r: seq<State>, acts: seq<Action>, i: nat): set<nat>
    requires Taken(d, r, acts) && i < |r|
  {
    if i == 0 then {0}
    else LeavesAt(d, r, acts, i - 1) + NewLeaves(Replacement(d, r[i - 1], acts[i - 1]).node, r[i - 1].next, r[i].next)
  }

  /** The addresses that the steps up to state i finalized. */
  ghost function FinalizedAt(d: Degree, r: seq<State>, acts: seq<Action>, i: nat): set<nat>
    requires Taken(d, r, acts) && i < |r|
  {
    if i == 0 then {} else FinalizedAt(d, r, acts, i - 1) + Finalizes(d, r[i - 1], acts[i - 1])
  }

  lemma {:induction false} RunKinds(d: Degree, r: seq<State>, acts: seq<Action>, i: nat)
    requires Taken(d, r, acts) && i < |r|
    ensures Inv(d, r[i]) && Kinds(r[i], LeavesAt(d, r, acts, i))
    ensures Finals(r[i], LeavesAt(d, r, acts, i), FinalizedAt(d, r, acts, i))
  {
    hide Inv, Kinds, Finals, Enabled, Next, NewLeaves, Finalizes, Replacement;
    if i == 0 {
      var anyKey :| r[0] == Initial(anyKey);
      InitialInv(d, anyKey);
      InitialKinds(anyKey);
    } else {
      RunKinds(d, r, acts, i - 1);
      TakenAt(d, r, acts, i - 1);
      StepInv(d, r[i - 1], acts[i - 1]);
      StepKinds(d, r[i - 1], acts[i - 1], LeavesAt(d, r, acts, i - 1));
      StepFinals(d, r[i - 1], acts[i - 1], LeavesAt(d, r, acts, i - 1), FinalizedAt(d, r, acts, i - 1));
    }
  }

  /** An address that was handed out by state j is a leaf's later on just when it is one's then. */
  lemma {:induction false} SameKind(d: Degree, r: seq<State>, acts: seq<Action>, j: nat, i: nat, id: nat)
    requires Taken(d, r, acts) && j <= i < |r| && id < r[j].next
    ensures id in LeavesAt(d, r, acts, i) <==> id in LeavesAt(d, r, acts, j)
    decreases i
  {
    hide Inv, Enabled, Next, Replacement, Taken, Runs.Run;
    if j < i {
      SameKind(d, r, acts, j, i - 1, id);
      TakenRun(d, r, acts);
      Runs.NextGrows(d, r, j, i - 1);
    }
  }

  /** The node with this address, at a moment up to state i, was of this kind. */
  ghost predicate Was(r: seq<State>, i: nat, id: nat, m: Mark) {
    exists j :: 0 <= j <= i && j < |r| && Has(r[j].root, id, m)
  }

  /** In every state of every run, for any number of threads: a leaf is never finalized, and an internal node
      is finalized precisely when it has been removed from the tree. */
  lemma RunFinals(d: Degree, r: seq<State>, acts: seq<Action>, i: nat, id: nat)
    requires Taken(d, r, acts) && i < |r|
    ensures Was(r, i, id, LeafNode) ==> id !in FinalizedAt(d, r, acts, i)
    ensures Was(r, i, id, InnerNode) ==> (id in FinalizedAt(d, r, acts, i) <==> !Linked(r[i].root, id))
    ensures id in FinalizedAt(d, r, acts, i) ==> Was(r, i, id, InnerNode)
  {
    hide Inv, Enabled, Next, Taken, Runs.Run, Has, LeavesAt, FinalizedAt;
    RunKinds(d, r, acts, i);
    TakenRun(d, r, acts);
    Runs.AddressState(d, r[i], id);
    if j :| 0 <= j <= i && Has(r[j].root, id, LeafNode) {
      KindWas(d, r, acts, j, i, id, LeafNode);
    }
    if j :| 0 <= j <= i && Has(r[j].root, id, InnerNode) {
      KindWas(d, r, acts, j, i, id, InnerNode);
    }
    if id in FinalizedAt(d, r, acts, i) {
      var j, m := RetiredWas(d, r, acts, i, id);
      if m == LeafNode {
        KindWas(d, r, acts, j, i, id, LeafNode);
      }
      assert Was(r, i, id, InnerNode);
    }
  }

  lemma KindWas(d: Degree, r: seq<State>, acts: seq<Action>, j: nat, i: nat, id: nat, m: Mark)
    requires Taken(d, r, acts) && j <= i < |r| && Has(r[j].root, id, m) && (m == LeafNode || m == InnerNode)
    ensures id in LeavesAt(d, r, acts, i) <==> m == LeafNode
    ensures id < r[i].next
  {
    hide Inv, Enabled, Next, Taken, Runs.Run, LeavesAt;
    RunKinds(d, r, acts, j);
    TakenRun(d, r, acts);
    MarkedIsLinked(r[j].root, id, m, 0);
    Runs.AddressState(d, r[j], id);
    Runs.NextGrows(d, r, j, i);
    SameKind(d, r, acts, j, i, id);
  }

  /** What has been retired was linked before, as a leaf or as an internal node. */
  lemma {:induction false} RetiredWas(d: Degree, r: seq<State>, acts: seq<Action>, i: nat, id: nat) returns (j: nat, m: Mark)
    requires Taken(d, r, acts) && i < |r| && id in r[i].retired
    ensures j <= i && (m == LeafNode || m == InnerNode) && Has(r[j].root, id, m)
  {
    hide Inv, Enabled, Replacement;
    TakenAt(d, r, acts, i - 1);
    if id in r[i - 1].retired {
      j, m := RetiredWas(d, r, acts, i - 1, id);
    } else {
      RunKinds(d, r, acts, i - 1);
      RetiredWasLinked(d, r[i - 1], acts[i - 1], id);
      LeafOrInner(r[i - 1].root, id, 0);
      j, m := i - 1, if Has(r[i - 1].root, id, LeafNode) then LeafNode else InnerNode;
    }
  }

  /** The first insertion removes a node without finalizing it. */
  lemma LeafNotFinalized(d: Degree, anyKey: int, k: int, v: int)
    ensures var s := Initial(anyKey);
            Enabled(d, s, Put(k, v)) && 0 in Next(d, s, Put(k, v)).retired && Finalizes(d, s, Put(k, v)) == {}
  {
  }
}
