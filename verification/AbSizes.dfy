/** The degree bounds in plain numbers: which nodes are too small, and how many
    entries each update and each rebalancing step leaves in which node. */
module AbSizes {
  import opened AbNodes
  import opened AbOrderProofs
  import opened AbPatches
  import opened AbOutcomes
  import opened AbPaths
  import opened AbSystem
  import opened AbRebalance
  import Driver = AbDriverProofs

  /** Fewer than max(DEGREE/4, 2) entries. */
  lemma TooSmall(d: Degree, size: nat)
    ensures size < MinDegree(d) <==> size < 2 || 4 * (size + 1) <= d
    ensures size < 2 * MinDegree(d) <==> size < 4 || 4 * (size / 2 + 1) <= d
  {
  }

  predicate Roomy(d: Degree, x: Node) {
    x.weight && x.Size() >= 2 && 4 * (x.Size() + 1) > d
  }

  lemma {:induction false} BadPlace(a: nat, t: Node) returns (path: seq<nat>)
    requires Violations(a, t) > 0
    ensures Valid(t, path) && path != [] && Own(Bad(a), Under(t, path), 0) > 0
    decreases t
  {
    var i := BadKid(Bad(a), t.Kids(), 0);
    var c := t.kids[i];
    path := [i];
    if Own(Bad(a), c, 0) == 0 {
      RootViolations(a, c);
      var rest := BadPlace(a, c);
      path := [i] + rest;
      assert path[1..] == rest;
    }
  }

  /** A tree is strict if and only if every node below its root has weight 1 and at least max(DEGREE/4, 2)
      entries. */
  lemma StrictSizes(d: Degree, t: Node)
    ensures Strict(d, t) <==> forall path :: Valid(t, path) && path != [] ==> Roomy(d, Under(t, path))
  {
    var a := MinDegree(d);
    if Strict(d, t) {
      forall path | Valid(t, path) && path != [] ensures Roomy(d, Under(t, path)) {
        Driver.BadBelow(a, t, path);
        TooSmall(d, Under(t, path).Size());
      }
    } else {
      var path := BadPlace(a, t);
      TooSmall(d, Under(t, path).Size());
    }
  }

  /** In a relaxed tree, what a degree repair needs: at the parent two children and weight 1, at the node and
      its sibling weight 1, and at the node too few entries. */
  lemma DegreeEnabled(d: Degree, s: State, path: seq<nat>, ix: nat)
    requires Inv(d, s) && Valid(s.root, path)
    ensures Enabled(d, s, FixDegree(path, ix)) <==>
              var p := Under(s.root, path);
              && p.Internal? && p.weight && ix < |p.kids| && |p.kids| >= 2
              && var l := p.kids[ix];
                 l.weight && p.kids[if ix > 0 then ix - 1 else 1].weight && (l.Size() < 2 || 4 * (l.Size() + 1) <= d)
  {
    var p := Under(s.root, path);
    UnderWf(d, s.root, path, Top(s.root));
    if p.Internal? && ix < |p.kids| {
      TooSmall(d, p.kids[ix].Size());
      if p.weight && |p.kids| >= 2 && p.kids[ix].weight && p.kids[Sibling(ix)].weight && p.kids[ix].Size() < MinDegree(d) {
        DegreeGuard(d, p, ix, SpanAt(s.root, path, Top(s.root)));
      }
    }
  }

  /** And a weight repair: a child of weight 0 under a parent of weight 1. */
  lemma WeightEnabled(d: Degree, s: State, path: seq<nat>, ix: nat)
    requires Inv(d, s) && Valid(s.root, path)
    ensures Enabled(d, s, FixWeight(path, ix)) <==>
              var p := Under(s.root, path); p.Internal? && p.weight && ix < |p.kids| && !p.kids[ix].weight
  {
    var p := Under(s.root, path);
    UnderWf(d, s.root, path, Top(s.root));
    if p.Internal? && p.weight && ix < |p.kids| && !p.kids[ix].weight {
      WeightGuard(d, p, ix, SpanAt(s.root, path, Top(s.root)));
    }
  }

  // ------------------------------------------------------------ entries after a step

  /** Two nodes share m entries evenly, the left one having the smaller half. */
  predicate Halves(x: Node, y: Node, m: nat) {
    x.weight && y.weight && x.Size() == m / 2 && y.Size() == m - m / 2
  }

  /** Node and sibling become one node when they have fewer than 2 * max(DEGREE/4, 2) entries together, which
      as the only child replaces a root; otherwise they share their entries evenly. */
  lemma DegreeSizes(d: Degree, s: State, path: seq<nat>, ix: nat)
    requires Enabled(d, s, FixDegree(path, ix))
    ensures var p, n := Under(s.root, path), Replacement(d, s, FixDegree(path, ix)).node;
            var i, j := if ix > 0 then ix - 1 else 0, if ix > 0 then ix - 1 else 1;
            var m := p.kids[ix].Size() + p.kids[j].Size();
            && n.weight
            && if m < 4 || 4 * (m / 2 + 1) <= d then
                 if path == [] && |p.kids| == 2 then n.Size() == m
                 else n.Internal? && |n.kids| == |p.kids| - 1 && n.kids[i].weight && n.kids[i].Size() == m
                      && n.kids[..i] == p.kids[..i] && n.kids[i + 1..] == p.kids[i + 2..]
               else
                 n.Internal? && |n.kids| == |p.kids| && Halves(n.kids[i], n.kids[i + 1], m)
                 && n.kids[..i] == p.kids[..i] && n.kids[i + 2..] == p.kids[i + 2..]
  {
    var p := Under(s.root, path);
    TooSmall(d, p.kids[ix].Size() + p.kids[Sibling(ix)].Size());
    assert Sibling(ix) == if ix > 0 then ix - 1 else 1;
    if p.kids[ix].Size() + p.kids[Sibling(ix)].Size() < 2 * MinDegree(d) {
      AbsorbSizes(d, p, ix, path == [], s.next);
    } else {
      DistributeSizes(d, p, ix, s.next);
    }
  }

  lemma JoinedSize(p: Node, i: nat, id: nat, sk: int)
    requires IsInternal(p) && i < |p.keys|
    requires (IsLeaf(p.kids[i]) && IsLeaf(p.kids[i + 1])) || (IsInternal(p.kids[i]) && IsInternal(p.kids[i + 1]))
    ensures var big := Joined(p, i, id, sk);
            big.weight && big.Size() == p.kids[i].Size() + p.kids[i + 1].Size() && (IsLeaf(big) || IsInternal(big))
  {
  }

  lemma AbsorbSizes(d: Degree, p: Node, ix: nat, top: bool, next: nat)
    requires CanFixDegree(d, p, ix)
    ensures var n, i := AbsorbSiblingPatch(d, p, ix, top, next).node, LeftOf(ix);
            var m := p.kids[ix].Size() + p.kids[Sibling(ix)].Size();
            && n.weight
            && if top && |p.kids| == 2 then n.Size() == m
               else n.Internal? && |n.kids| == |p.kids| - 1 && n.kids[i].weight && n.kids[i].Size() == m
                    && n.kids[..i] == p.kids[..i] && n.kids[i + 1..] == p.kids[i + 2..]
  {
    JoinedSize(p, LeftOf(ix), next, p.kids[ix].searchKey);
    hide Joined;
  }

  lemma DistributeSizes(d: Degree, p: Node, ix: nat, next: nat)
    requires CanFixDegree(d, p, ix)
    requires p.kids[ix].Size() + p.kids[Sibling(ix)].Size() >= 2 * MinDegree(d)
    ensures var n, i := DistributePatch(d, p, ix, next).node, LeftOf(ix);
            var m := p.kids[ix].Size() + p.kids[Sibling(ix)].Size();
            && n.weight && n.Internal? && |n.kids| == |p.kids| && Halves(n.kids[i], n.kids[i + 1], m)
            && n.kids[..i] == p.kids[..i] && n.kids[i + 2..] == p.kids[i + 2..]
  {
    JoinedSize(p, LeftOf(ix), next, p.searchKey);
    CutSizes(Joined(p, LeftOf(ix), next, p.searchKey), next + 1, next + 2);
    hide Joined, CutLeft, CutRight, CutKey;
  }

  lemma CutSizes(t: Node, x: nat, y: nat)
    requires CanCut(t, t.Size() / 2)
    ensures Halves(CutLeft(t, t.Size() / 2, x), CutRight(t, t.Size() / 2, y), t.Size())
  {
  }

  /** A child of weight 0 gives its two children to its parent if there is room for one more; otherwise the
      entries are shared evenly by two nodes, under a parent of weight 0 that is the root or has its own
      weight repaired later. */
  lemma WeightSizes(d: Degree, s: State, path: seq<nat>, ix: nat)
    requires Enabled(d, s, FixWeight(path, ix))
    ensures var p, n := Under(s.root, path), Replacement(d, s, FixWeight(path, ix)).node;
            && n.Internal?
            && if |p.kids| < d then n.weight && |n.kids| == |p.kids| + 1
               else (n.weight <==> path == []) && |n.kids| == 2 && Halves(n.kids[0], n.kids[1], |p.kids| + 1)
  {
    var p := Under(s.root, path);
    if |p.kids| >= d {
      CutSizes(Merged(p, ix, s.next), s.next, s.next + 1);
    }
  }

  lemma HasKeyIn(l: Node, k: int)
    requires IsLeaf(l) && Sorted(l.keys)
    ensures HasKey(l, k) <==> k in l.keys
  {
    if j :| 0 <= j < |l.keys| && l.keys[j] == k {
      assert j >= KeyIndex(l.keys, k);
    }
  }

  /** A leaf gains an entry if the key is new and there is room; a full leaf becomes two with the DEGREE + 1
      entries shared evenly. */
  lemma PutSizes(d: Degree, s: State, k: int, v: int)
    requires Inv(d, s) && Enabled(d, s, Put(k, v))
    ensures var l, n := Under(s.root, Place(s, Put(k, v))), Replacement(d, s, Put(k, v)).node;
            if k in l.keys then IsLeaf(n) && n.weight && n.Size() == l.Size()
            else if l.Size() < d then IsLeaf(n) && n.weight && n.Size() == l.Size() + 1
            else (n.weight <==> Place(s, Put(k, v)) == []) && n.Internal? && |n.kids| == 2 && Halves(n.kids[0], n.kids[1], d + 1)
  {
    var l := Under(s.root, Place(s, Put(k, v)));
    PlaceWf(d, s, Put(k, v));
    WfShape(d, l, SpanAt(s.root, Place(s, Put(k, v)), Top(s.root)));
    HasKeyIn(l, k);
    if l.Size() == d && !HasKey(l, k) {
      CutSizes(Inserted(l, k, v, s.next), s.next, s.next + 1);
    }
  }
}
