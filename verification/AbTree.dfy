/** The dictionary object, run by one thread: searches, updates, and the
    recursive fix-ups that follow each of them. */
module AbTree {
  import opened AbNodes
  import opened AbPatches
  import opened AbOutcomes
  import opened AbPaths
  import opened AbSystem
  import opened AbFinal
  import opened AbRebalance
  import opened AbDriverProofs
  import opened AbBuild

  const NO_VALUE := -1

  method GetChildIndex(keys: seq<int>, key: int) returns (retval: nat)
    ensures retval == ChildIndex(keys, key)
  {
    retval := 0;
    while retval < |keys| && !(key < keys[retval])
      invariant retval <= |keys|
      invariant ChildIndex(keys, key) == retval + ChildIndex(keys[retval..], key)
    {
      assert keys[retval..][1..] == keys[retval + 1..];
      retval := retval + 1;
    }
  }

  method GetKeyIndex(keys: seq<int>, key: int) returns (retval: nat)
    ensures retval == KeyIndex(keys, key)
  {
    retval := 0;
    while retval < |keys| && keys[retval] < key
      invariant retval <= |keys|
      invariant KeyIndex(keys, key) == retval + KeyIndex(keys[retval..], key)
    {
      assert keys[retval..][1..] == keys[retval + 1..];
      retval := retval + 1;
    }
  }

  class Tree {
    const d: Degree
    var root: Node
    var next: nat
    var retired: seq<nat>
    var finalized: set<nat>
    ghost var leaves: set<nat>

    ghost function S(): State
      reads this
    {
      State(root, next, retired)
    }

    /** A relaxed tree; a removed node is finalized exactly when it is internal. */
    ghost predicate Ok()
      reads this
    {
      Inv(d, S()) && Kinds(S(), leaves) && Finals(S(), leaves, finalized)
    }

    constructor (d: Degree, anyKey: int)
      ensures Ok() && this.d == d && Strict(d, root) && S() == Initial(anyKey)
    {
      this.d := d;
      root := Leaf(0, true, anyKey, [], []);
      next := 1;
      retired := [];
      finalized := {};
      leaves := {0};
      new;
      InitialInv(d, anyKey);
      InitialKinds(anyKey);
    }

    /** find: the value stored for key, if any. */
    method Find(key: int) returns (value: int, found: bool)
      requires Ok()
      ensures found <==> Lookup(root, key).Some?
      ensures value == if found then Lookup(root, key).value else NO_VALUE
    {
      var path, l := SearchLeaf(key);
      var index := GetKeyIndex(l.keys, key);
      SearchLookup(root, path, key);
      UnderWf(d, root, path, Top(root));
      if index < |l.keys| && l.keys[index] == key {
        return l.vals[index], true;
      } else {
        return NO_VALUE, false;
      }
    }

    /** The search loop of the updates: down to a leaf. */
    method SearchLeaf(key: int) returns (path: seq<nat>, l: Node)
      requires Ok()
      ensures path == LeafPath(root, key) && Valid(root, path) && l == Under(root, path) && l.Leaf?
      ensures OnSearch(root, key, path) && IsLeaf(l) && |l.keys| <= d && l.weight
    {
      path, l := [], root;
      while !l.Leaf?
        invariant Valid(root, path) && l == Under(root, path) && OnSearch(root, key, path)
        decreases l
      {
        UnderWf(d, root, path, Top(root));
        var ix := GetChildIndex(l.keys, key);
        Longer(root, path, ix);
        LongerSearch(root, key, path, ix);
        path, l := path + [ix], l.kids[ix];
      }
      UnderWf(d, root, path, Top(root));
      SearchEnds(root, key, path);
    }

    /** The search loop of the fix-ups: down to viol or a leaf. */
    method SearchNode(viol: Node) returns (path: seq<nat>, l: Node)
      requires Ok() && Known(S(), viol)
      ensures Valid(root, path) && l == Under(root, path)
      ensures if l.id == viol.id then SameRecord(viol, l) && |path| == Steps(root, viol.searchKey, viol.id)
              else !Linked(root, viol.id)
    {
      var k := viol.searchKey;
      path, l := [], root;
      while !l.Leaf? && l.id != viol.id
        invariant Valid(root, path) && l == Under(root, path)
        invariant Locate(root, k, viol.id) == Locate(l, k, viol.id)
        invariant Steps(root, k, viol.id) == |path| + Steps(l, k, viol.id)
        decreases l
      {
        var ix := GetChildIndex(l.keys, k);
        UnderWf(d, root, path, Top(root));
        Longer(root, path, ix);
        path, l := path + [ix], l.kids[ix];
      }
      LocatedIs(root, k, viol.id);
    }

    /** scxExecute: swing the pointer at `path`, finalize and retire what it unlinks. */
    method Scx(path: seq<nat>, n: Node, ids: seq<nat>, fin: set<nat>, used: nat)
      requires Valid(root, path)
      modifies this
      ensures S() == Swing(old(S()), path, Patch(n, ids, used))
      ensures finalized == old(finalized) + fin && leaves == old(leaves) + NewLeaves(n, old(next), used)
    {
      root := Graft(root, path, n);
      retired := retired + ids;
      finalized := finalized + fin;
      leaves := leaves + NewLeaves(n, next, used);
      next := used;
    }

    // --------------------------------------------------------------- fix-ups

    /** One repair by SCX, with everything that holds after it. */
    method ScxRepair(ghost act: Action, path: seq<nat>, n: Node, ids: seq<nat>, fin: set<nat>, used: nat)
      requires Ok() && Enabled(d, S(), act) && Repair(act) && path == Place(S(), act)
      requires Replacement(d, S(), act) == Patch(n, ids, used)
      requires fin == Finalizes(d, S(), act)
      modifies this
      ensures Ok() && Reached(d, old(S()), S()) && S() == Next(d, old(S()), act)
      ensures S() != old(S()) && Lower(MinDegree(d), root, old(root), 0) && retired == old(retired) + ids
      ensures Known(S(), n) && Linked(root, n.id) && (path != [] ==> n.id != root.id)
      ensures Violations(MinDegree(d), root) + 1 <=
              old(Violations(MinDegree(d), root)) + (if path == [] then 0 else Own(Bad(MinDegree(d)), n, 0))
    {
      hide Kinds, Finals, Finalizes, NewLeaves;
      AfterStep(d, S(), act);
      StepLower(d, S(), act);
      StepUses(d, S(), act, 0);
      StepKinds(d, S(), act, leaves);
      StepFinals(d, S(), act, leaves, finalized);
      ReachedSelf(d, S());
      ReachedStep(d, S(), S(), act);
      Scx(path, n, ids, fin, used);
    }

    /** Absorb or Split at child ixToL of the node at `up`: build, then SCX. */
    method SwingWeight(up: seq<nat>, ixToL: nat) returns (n: Node)
      requires Ok() && Valid(root, up)
      requires var p := Under(root, up); p.Internal? && p.weight && ixToL < |p.kids| && !p.kids[ixToL].weight
      modifies this
      ensures Ok() && Reached(d, old(S()), S()) && S() != old(S()) && Lower(MinDegree(d), root, old(root), 0)
      ensures Known(S(), n) && Linked(root, n.id) && old(Under(root, up).kids[ixToL].id) in retired
      ensures old(Violations(MinDegree(d), root)) <= 1 ==>
              if n.weight then DegreeFocus(d, S(), n) else WeightFocus(d, S(), n)
    {
      hide Kinds, Finals, Inv, Reached, Known, Count, Valid, Linked, Lower, Merged, Graft, Locate;
      WeightStep(d, S(), up, ixToL);
      var p := Under(root, up);
      var l := p.kids[ixToL];
      if p.Size() + l.Size() - 1 <= d {
        n := BuildAbsorb(d, p, ixToL, next);
        ScxRepair(FixWeight(up, ixToL), up, n, [p.id, l.id], {p.id, l.id}, next + 1);
      } else {
        n := BuildSplit(d, p, ixToL, up == [], next);
        ScxRepair(FixWeight(up, ixToL), up, n, [p.id, l.id], {p.id, l.id}, next + 3);
      }
    }

    method FixWeightViolation(viol: Node) returns (done: bool)
      requires Ok() && Known(S(), viol)
      modifies this
      ensures Ok() && Reached(d, old(S()), S())
      ensures viol.weight || !Linked(root, viol.id)
      ensures viol.weight ==> S() == old(S())
      ensures !viol.weight && old(Linked(root, viol.id)) ==> S() != old(S())
      ensures old(WeightFocus(d, S(), viol)) ==> Strict(d, root)
      ensures done ==> S() != old(S())
      decreases Count(Zeros, root, 0), Count(Dist, root, 0), Count(Nodes, root, 0), Count(Small(MinDegree(d)), root, 0),
                1, Steps(root, viol.searchKey, viol.id)
    {
      hide Kinds, Finals, Reached, Known, Count, Inv, Violations, Valid, Under, Locate, Steps;
      ReachedSelf(d, S());
      if viol.weight {
        return false;
      }
      if viol.id in finalized {
        FinalIsRetired(S(), leaves, finalized, viol.id);
        Retired(d, S(), viol.id);
        return false;
      }
      while true
        invariant Ok() && Known(S(), viol) && Reached(d, old(S()), S())
        invariant S() == old(S()) || Lower(MinDegree(d), root, old(root), 0)
        invariant old(WeightFocus(d, S(), viol)) ==> WeightFocus(d, S(), viol)
        decreases Count(Zeros, root, 0), Count(Dist, root, 0), Count(Nodes, root, 0), Count(Small(MinDegree(d)), root, 0)
      {
        var path, l := SearchNode(viol);
        if l.id != viol.id {
          return false;
        }
        NotRoot(d, S(), path);
        var up, ixToL := path[..|path| - 1], path[|path| - 1];
        var p := Under(root, up);
        ghost var s0 := S();
        if !p.weight {
          WeightAbove(d, s0, up, ixToL);
          var again := FixWeightViolation(p);
          ReachedKnown(d, s0, S(), viol);
          ReachedKeeps(d, s0, S());
          ReachedOn(d, old(S()), s0, S());
          continue;
        }
        done := FixWeightHere(up, ixToL);
        ReachedOn(d, old(S()), s0, S());
        ReachedKeeps(d, s0, S());
        Retired(d, S(), viol.id);
        return;
      }
    }

    /** The step itself, and the fixes for the violations it may leave at the new node. */
    method FixWeightHere(up: seq<nat>, ixToL: nat) returns (done: bool)
      requires Ok() && Valid(root, up)
      requires var p := Under(root, up); p.Internal? && p.weight && ixToL < |p.kids| && !p.kids[ixToL].weight
      modifies this
      ensures Ok() && Reached(d, old(S()), S()) && S() != old(S()) && done
      ensures old(Under(root, up).kids[ixToL].id) in retired
      ensures old(Violations(MinDegree(d), root)) <= 1 ==> Strict(d, root)
      decreases Count(Zeros, root, 0), Count(Dist, root, 0), Count(Nodes, root, 0), Count(Small(MinDegree(d)), root, 0), 0, 0
    {
      hide Kinds, Finals, Inv, Reached, Known, Count, Violations, Valid, Under, Linked, Lower;
      ghost var s0 := S();
      var n := SwingWeight(up, ixToL);
      ghost var s1 := S();
      SameOrLower(MinDegree(d), s0, s1, s1);
      var again := FixWeightViolation(n);
      ReachedKnown(d, s1, S(), n);
      ReachedOn(d, s0, s1, S());
      ReachedKeeps(d, s1, S());
      ghost var s2 := S();
      SameOrLower(MinDegree(d), s0, s1, s2);
      var more, alone := FixDegreeViolation(n);
      ReachedOn(d, s0, s2, S());
      ReachedKeeps(d, s2, S());
      SameOrLower(MinDegree(d), s0, s2, S());
      done := true;
    }

    /** AbsorbSibling or Distribute at child ixToL of the node at `up`: build, then SCX. */
    method SwingDegree(up: seq<nat>, ixToL: nat) returns (n: Node, newl: Option<Node>)
      requires Ok() && Valid(root, up)
      requires var p := Under(root, up);
               && p.Internal? && p.weight && ixToL < |p.kids| && |p.kids| >= 2
               && p.kids[ixToL].weight && p.kids[Sibling(ixToL)].weight && p.kids[ixToL].Size() < MinDegree(d)
      modifies this
      ensures Ok() && Reached(d, old(S()), S()) && S() != old(S()) && Lower(MinDegree(d), root, old(root), 0)
      ensures Known(S(), n) && Linked(root, n.id) && old(Under(root, up).kids[ixToL].id) in retired
      ensures newl.Some? ==> Known(S(), newl.value) && Linked(root, newl.value.id)
                             && (newl.value.id != root.id || newl.value == n)
      ensures old(Violations(MinDegree(d), root)) <= 1 ==> DegreeFocus(d, S(), n)
    {
      hide Kinds, Finals, Inv, Reached, Known, Count, Valid, Linked, Lower, Joined, DegreePatch, AbsorbSiblingPatch, DistributePatch, Graft, Locate;
      DegreeStep(d, S(), up, ixToL);
      var p := Under(root, up);
      var l := p.kids[ixToL];
      var ixToS := if ixToL > 0 then ixToL - 1 else 1;
      var s := p.kids[ixToS];
      var ids := [p.id, l.id, s.id];
      var fin := if l.Leaf? then {p.id} else {p.id, l.id, s.id};
      var sz := l.Size() + s.Size();
      DegreeReplacement(d, S(), up, ixToL);
      if sz < 2 * MinDegree(d) {
        NewlKnown(d, S(), up, ixToL);
        var x;
        n, x := BuildAbsorbSibling(d, p, ixToL, up == [], next);
        ScxRepair(FixDegree(up, ixToL), up, n, ids, fin, if up == [] && p.Size() == 2 then next + 1 else next + 2);
        newl := Some(x);
      } else {
        n := BuildDistribute(d, p, ixToL, next);
        ScxRepair(FixDegree(up, ixToL), up, n, ids, fin, next + 3);
        newl := None;
      }
    }

    /** The checks for weight violations at p, l and s that precede a degree repair.
        `stuck` says that p has one child only, so that nothing can be done here. */
    method FixWeightsAround(up: seq<nat>, ixToL: nat) returns (found: bool, stuck: bool)
      requires Ok() && Valid(root, up) && Under(root, up).Internal? && ixToL < |Under(root, up).kids|
      requires Under(root, up).kids[ixToL].Size() < MinDegree(d)
      modifies this
      ensures Ok() && Reached(d, old(S()), S())
      ensures found ==> S() != old(S())
      ensures !found ==> S() == old(S())
      ensures stuck <==> old(|Under(root, up).kids|) == 1
      ensures found && stuck ==> !Linked(root, old(Under(root, up).kids[ixToL].id))
      ensures !found && !stuck ==>
              var p := Under(root, up);
              p.weight && p.kids[ixToL].weight && |p.kids| >= 2 && p.kids[Sibling(ixToL)].weight
      ensures old(Violations(MinDegree(d), root)) <= 1 ==> if found then Strict(d, root) else !stuck
      decreases Count(Zeros, root, 0), Count(Dist, root, 0), Count(Nodes, root, 0), Count(Small(MinDegree(d)), root, 0), 2, 1
    {
      var p := Under(root, up);
      var l := p.kids[ixToL];
      ghost var s0 := S();
      ReadAround(d, s0, up, ixToL);
      OnlyHere(d, s0, up, ixToL);
      hide WeightFocus, Kinds, Finals, Inv, Reached, Known, Count, Violations, Valid, Under, Linked, Lower, Locate, Steps;
      ReachedSelf(d, s0);
      found := FixIfLight(p, s0);
      stuck := false;
      var again := FixIfLight(l, s0);
      found := found || again;
      if p.Size() == 1 {
        stuck := true;
        return;
      }
      again := FixIfLight(p.kids[if ixToL > 0 then ixToL - 1 else 1], s0);
      found := found || again;
    }

    /** The fix-up for a node of weight 0, where x was read in state s0. */
    method FixIfLight(x: Node, ghost s0: State) returns (found: bool)
      requires Ok() && Reached(d, s0, S()) && Known(s0, x)
      modifies this
      ensures Ok() && Reached(d, s0, S()) && found == !x.weight
      ensures !found ==> S() == old(S())
      ensures found ==> !Linked(root, x.id)
      ensures found && Linked(s0.root, x.id) ==> S() != s0
      ensures S() == old(S()) || Lower(MinDegree(d), root, old(root), 0)
      ensures old(S()) != s0 ==> S() != s0
      ensures old(WeightFocus(d, S(), x)) ==> Strict(d, root)
      decreases Count(Zeros, root, 0), Count(Dist, root, 0), Count(Nodes, root, 0), Count(Small(MinDegree(d)), root, 0), 2, 0
    {
      hide Kinds, Finals, Inv, Reached, Known, Count, Violations, Valid, Under, Locate, Steps;
      found := !x.weight;
      if found {
        ghost var s := S();
        ReachedKnown(d, s0, s, x);
        ReachedKeeps(d, s0, s);
        var again := FixWeightViolation(x);
        ReachedOn(d, s0, s, S());
        ReachedKeeps(d, s, S());
      }
    }

    /** `alone` says that the node was met under a parent with no other child, and is left there. */
    method FixDegreeViolation(viol: Node) returns (done: bool, ghost alone: bool)
      requires Ok() && Known(S(), viol)
      modifies this
      ensures Ok() && Reached(d, old(S()), S())
      ensures alone ==> viol.Size() < MinDegree(d) && LonelyKid(root, viol.id)
      ensures alone || viol.Size() >= MinDegree(d) || old(root.id) == viol.id || !Linked(root, viol.id)
      ensures viol.Size() >= MinDegree(d) ==> S() == old(S())
      ensures old(DegreeFocus(d, S(), viol)) ==> Strict(d, root)
      ensures done ==> S() != old(S())
      decreases Count(Zeros, root, 0), Count(Dist, root, 0), Count(Nodes, root, 0), Count(Small(MinDegree(d)), root, 0), 3, 0
    {
      hide Kinds, Finals, Reached, Count, Inv, Violations, Valid, Under, Locate, Steps;
      ReachedSelf(d, S());
      if viol.Size() >= MinDegree(d) || viol.id == root.id {
        return false, false;
      }
      if viol.id in finalized {
        FinalIsRetired(S(), leaves, finalized, viol.id);
        Retired(d, S(), viol.id);
        return false, false;
      }
      while true
        invariant Ok() && Known(S(), viol) && Reached(d, old(S()), S()) && viol.id != root.id
        invariant S() == old(S()) || Lower(MinDegree(d), root, old(root), 0)
        invariant old(DegreeFocus(d, S(), viol)) ==> DegreeFocus(d, S(), viol)
        decreases Count(Zeros, root, 0), Count(Dist, root, 0), Count(Nodes, root, 0), Count(Small(MinDegree(d)), root, 0)
      {
        var path, l := SearchNode(viol);
        if l.id != viol.id {
          return false, false;
        }
        NotRoot(d, S(), path);
        var up, ixToL := path[..|path| - 1], path[|path| - 1];
        ghost var s0 := S();
        var found, stuck := FixWeightsAround(up, ixToL);
        ReachedKnown(d, s0, S(), viol);
        ReachedKeeps(d, s0, S());
        ReachedOn(d, old(S()), s0, S());
        if stuck {
          assert !found ==> Lonely(root, up, viol.id);
          return false, !found;
        }
        if found {
          continue;
        }
        alone := false;
        done := FixDegreeHere(up, ixToL);
        ReachedOn(d, old(S()), s0, S());
        ReachedKeeps(d, s0, S());
        Retired(d, S(), viol.id);
        return;
      }
    }

    /** The step itself, and the fixes for the violations it may leave at the new nodes. */
    method FixDegreeHere(up: seq<nat>, ixToL: nat) returns (done: bool)
      requires Ok() && Valid(root, up)
      requires var p := Under(root, up);
               && p.Internal? && p.weight && ixToL < |p.kids| && |p.kids| >= 2
               && p.kids[ixToL].weight && p.kids[Sibling(ixToL)].weight && p.kids[ixToL].Size() < MinDegree(d)
      modifies this
      ensures Ok() && Reached(d, old(S()), S()) && S() != old(S()) && done
      ensures old(Under(root, up).kids[ixToL].id) in retired
      ensures old(Violations(MinDegree(d), root)) <= 1 ==> Strict(d, root)
      decreases Count(Zeros, root, 0), Count(Dist, root, 0), Count(Nodes, root, 0), Count(Small(MinDegree(d)), root, 0), 0, 0
    {
      hide Kinds, Finals, Inv, Reached, Known, Count, Violations, Valid, Under, Linked, Lower;
      ghost var s0 := S();
      var n, newl := SwingDegree(up, ixToL);
      ghost var s1 := S();
      SameOrLower(MinDegree(d), s0, s1, s1);
      if newl.Some? && newl.value.id != n.id {
        var again, alone := FixDegreeViolation(newl.value);
        ReachedKnown(d, s1, S(), n);
        ReachedOn(d, s0, s1, S());
        ReachedKeeps(d, s1, S());
      }
      ghost var s2 := S();
      SameOrLower(MinDegree(d), s0, s1, s2);
      var again, alone := FixDegreeViolation(n);
      ReachedOn(d, s0, s2, S());
      ReachedKeeps(d, s2, S());
      SameOrLower(MinDegree(d), s0, s2, S());
      done := true;
    }

    // --------------------------------------------------------------- updates

    /** insert (replace) and insertIfAbsent (not replace). */
    method DoInsert(key: int, value: int, replace: bool) returns (result: int)
      requires Ok()
      modifies this
      ensures Ok() && old(retired) <= retired
      ensures old(Strict(d, root)) ==> Strict(d, root)
      ensures forall k :: Lookup(root, k) ==
                          if k == key && (replace || old(Lookup(root, key)) == None) then Some(value) else old(Lookup(root, k))
      ensures result == if old(Lookup(root, key)).Some? then old(Lookup(root, key)).value else NO_VALUE
    {
      var path, l := SearchLeaf(key);
      SearchLookup(root, path, key);
      var keyIndex := GetKeyIndex(l.keys, key);
      if keyIndex < |l.keys| && l.keys[keyIndex] == key {
        result := l.vals[keyIndex];
        if !replace {
          return;
        }
        PutInLeaf(path, l, keyIndex, key, value);
      } else {
        result := NO_VALUE;
        PutInLeaf(path, l, keyIndex, key, value);
      }
    }

    /** Replace, Insert or Overflow at leaf l, then the fix-up that belongs to it. */
    method PutInLeaf(path: seq<nat>, l: Node, keyIndex: nat, key: int, value: int)
      requires Ok() && Enabled(d, S(), Put(key, value)) && path == LeafPath(root, key) && l == Under(root, path)
      requires keyIndex == KeyIndex(l.keys, key) && l.weight
      modifies this
      ensures Ok() && old(retired) <= retired
      ensures old(Strict(d, root)) ==> Strict(d, root)
      ensures Became(old(S()), S(), key, Some(value))
    {
      hide Kinds, Finals, Inv, Reached, Known, Count, Violations, Graft, Lookup, LeafPath, Lower, Linked, Became;
      ghost var act := Put(key, value);
      if keyIndex < |l.keys| && l.keys[keyIndex] == key {
        var n := BuildReplace(d, l, keyIndex, value, next);
        ScxUpdate(act, path, n, l.id, next + 1);
        ghost var s1 := S();
        var again, alone := FixDegreeViolation(n);
        ReachedKeeps(d, s1, S());
        BecameOn(d, old(S()), s1, S(), key, Some(value));
      } else if |l.keys| < d {
        var n := BuildInsert(d, l, key, value, next);
        ScxUpdate(act, path, n, l.id, next + 1);
        ghost var s1 := S();
        var again, alone := FixDegreeViolation(n);
        ReachedKeeps(d, s1, S());
        BecameOn(d, old(S()), s1, S(), key, Some(value));
      } else {
        PutOverflow(path, l, key, value);
      }
    }

    /** A full leaf: a new parent over its two halves, of weight 0 unless it is the root. */
    method PutOverflow(path: seq<nat>, l: Node, key: int, value: int)
      requires Ok() && Enabled(d, S(), Put(key, value)) && path == LeafPath(root, key) && l == Under(root, path)
      requires l.weight && !HasKey(l, key) && |l.keys| == d
      modifies this
      ensures Ok() && old(retired) <= retired
      ensures old(Strict(d, root)) ==> Strict(d, root)
      ensures Became(old(S()), S(), key, Some(value))
    {
      hide Kinds, Finals, Inv, Reached, Known, Count, Violations, Graft, Lookup, LeafPath, Lower, Linked, Became;
      var n := BuildOverflow(d, l, key, value, path == [], next);
      ScxUpdate(Put(key, value), path, n, l.id, next + 3);
      ghost var s1 := S();
      var again := FixWeightViolation(n);
      ReachedKeeps(d, s1, S());
      BecameOn(d, old(S()), s1, S(), key, Some(value));
    }

    /** erase: the removed value, and whether there was one. */
    method Erase(key: int) returns (result: int, found: bool)
      requires Ok()
      modifies this
      ensures Ok() && old(retired) <= retired
      ensures old(Strict(d, root)) ==> Strict(d, root)
      ensures forall k :: Lookup(root, k) == if k == key then None else old(Lookup(root, k))
      ensures found <==> old(Lookup(root, key)).Some?
      ensures result == if found then old(Lookup(root, key)).value else NO_VALUE
    {
      var path, l := SearchLeaf(key);
      SearchLookup(root, path, key);
      var keyIndex := GetKeyIndex(l.keys, key);
      if keyIndex == |l.keys| || l.keys[keyIndex] != key {
        return NO_VALUE, false;
      }
      var n := BuildErase(d, l, key, next);
      result, found := l.vals[keyIndex], true;
      ScxUpdate(Del(key), path, n, l.id, next + 1);
      ghost var s1 := S();
      var again, alone := FixDegreeViolation(n);
      ReachedKeeps(d, s1, S());
      BecameOn(d, old(S()), s1, S(), key, None);
    }

    /** One update by SCX at the leaf for its key. Leaves are never finalized. */
    method ScxUpdate(ghost act: Action, path: seq<nat>, n: Node, id: nat, used: nat)
      requires Ok() && Enabled(d, S(), act) && !Repair(act) && path == Place(S(), act)
      requires Replacement(d, S(), act) == Patch(n, [id], used)
      modifies this
      ensures Ok() && S() == Next(d, old(S()), act) && old(retired) <= retired
      ensures Became(old(S()), S(), act.key, if act.Put? then Some(act.val) else None)
      ensures Known(S(), n)
      ensures old(Strict(d, root)) ==> if n.weight then DegreeFocus(d, S(), n) else WeightFocus(d, S(), n)
      ensures old(Strict(d, root)) && path == [] ==> Strict(d, root)
    {
      hide Kinds, Finals, NewLeaves;
      ghost var s0 := S();
      StepKinds(d, s0, act, leaves);
      StepFinals(d, s0, act, leaves, finalized);
      assert finalized + {} == finalized;
      AfterStep(d, s0, act);
      forall k ensures Lookup(Next(d, s0, act).root, k) ==
                       if k == act.key then (if act.Put? then Some(act.val) else None) else Lookup(s0.root, k) {
        StepLookup(d, s0, act, k);
      }
      Scx(path, n, [id], {}, used);
    }
  }

  /** The node with this address is the only child of the node at `up`. */
  ghost predicate Lonely(t: Node, up: seq<nat>, id: nat) {
    Valid(t, up) && Under(t, up).Internal? && |Under(t, up).kids| == 1 && Under(t, up).kids[0].id == id
  }

  ghost predicate LonelyKid(t: Node, id: nat) {
    exists up :: Lonely(t, up, id)
  }

  lemma FinalIsRetired(s: State, leaves: set<nat>, finalized: set<nat>, id: nat)
    requires Finals(s, leaves, finalized) && id in finalized
    ensures id in s.retired
  {
  }

  lemma Retired(d: Degree, s: State, id: nat)
    requires Inv(d, s) && id in s.retired
    ensures !Linked(s.root, id)
  {
    assert Uses(s, id) == Fresh(0, s.next, id);
  }

  /** Two stretches of repairs: the second may be empty, the first is not. */
  lemma SameOrLower(a: nat, x: State, y: State, z: State)
    requires Lower(a, y.root, x.root, 0)
    requires z == y || Lower(a, z.root, y.root, 0)
    ensures Lower(a, z.root, x.root, 0) && z != x
    ensures z.root != x.root
  {
  }

  lemma {:induction false} LocatedIs(t: Node, k: int, id: nat)
    ensures Locate(t, k, id).Some? ==> Locate(t, k, id).value.id == id && Linked(t, id)
    ensures t.id == id ==> Locate(t, k, id) == Some(t)
  {
    if Locate(t, k, id).Some? {
      LocatedIsLinked(t, k, id, 0);
    }
  }

  /** The dictionary of t is that of s, except that key now has the value v, or none. */
  ghost predicate Became(s: State, t: State, key: int, v: Option<int>) {
    forall k :: Lookup(t.root, k) == if k == key then v else Lookup(s.root, k)
  }

  lemma BecameOn(d: Degree, s: State, t: State, u: State, key: int, v: Option<int>)
    requires Became(s, t, key, v) && Reached(d, t, u)
    ensures Became(s, u, key, v)
  {
    ReachedKeeps(d, t, u);
  }
}
