/** Every replacement keeps the order, the key ranges, the size bound and the
    path weights of the place it is put in. */
module AbOrderProofs {
  import opened AbNodes
  import opened AbFans
  import opened AbPatches

  /** Path weight of a subtree, read off its leftmost path. */
  function WSum(t: Node): nat {
    t.W() + if t.Leaf? || t.kids == [] then 0 else WSum(t.kids[0])
  }

  lemma {:induction false} WfWSum(d: Degree, t: Node, sp: Span)
    requires Wf(d, t, sp)
    ensures sp.h == WSum(t) >= 1
    ensures t.Internal? && t.weight ==> sp.h >= 2
    decreases t
  {
    if t.Internal? {
      WfWSum(d, t.kids[0], Slot(t.keys, sp.(h := sp.h - t.W()), 0));
    }
  }

  /** What Wf says of a node's contents when its weight is 1, whatever its size. */
  ghost predicate Filled(d: Degree, t: Node, sp: Span) {
    if t.Leaf? then sp.h == 1 && Pairs(d, t.keys, t.vals, sp)
    else Fan(d, t.keys, t.kids, sp.(h := sp.h - 1))
  }

  /** Room for a key that separates the two halves. */
  ghost predicate Separates(left: Node, right: Node, s: int) {
    && left.Leaf? && right.Leaf? && IsLeaf(left) && IsLeaf(right) && Sorted(left.keys) && Sorted(right.keys)
    && (forall i :: 0 <= i < |left.keys| ==> left.keys[i] < s)
    && (forall i :: 0 <= i < |right.keys| ==> s <= right.keys[i])
  }

  /** t holds exactly what left and right hold, with s between them. */
  ghost predicate IsJoin(t: Node, left: Node, right: Node, s: int) {
    || (t.Leaf? && Separates(left, right, s) && t.keys == left.keys + right.keys && t.vals == left.vals + right.vals)
    || (&& IsInternal(t) && IsInternal(left) && IsInternal(right) && Sorted(t.keys)
        && t.keys == left.keys + [s] + right.keys && t.kids == left.kids + right.kids)
  }

  lemma WfShape(d: Degree, t: Node, sp: Span)
    requires Wf(d, t, sp)
    ensures if t.Leaf? then IsLeaf(t) && t.weight else IsInternal(t)
    ensures !t.weight ==> |t.kids| == 2
    ensures t.Size() <= d && Sorted(t.keys)
  {
  }

  /** Either half of well-filled contents is a well-formed node of weight 1. */
  lemma CutWf(d: Degree, t: Node, m: nat, sp: Span, x: nat, y: nat)
    requires Filled(d, t, sp) && CanCut(t, m) && m <= d && t.Size() - m <= d
    ensures sp.Inside(CutKey(t, m))
    ensures Wf(d, CutLeft(t, m, x), sp.(hi := Some(CutKey(t, m))))
    ensures Wf(d, CutRight(t, m, y), sp.(lo := Some(CutKey(t, m))))
  {
    if t.Leaf? {
      PairsCut(d, t.keys, t.vals, sp, m);
    } else {
      Cut(d, t.keys, t.kids, sp.(h := sp.h - 1), m);
      assert t.keys[0] < t.keys[m - 1] < t.keys[m];
    }
  }

  /** The halves under a fresh parent: in place it keeps the height, as root it adds one. */
  lemma HalvedWf(d: Degree, t: Node, m: nat, top: bool, next: nat, sp: Span)
    requires Filled(d, t, sp) && CanCut(t, m) && m <= d && t.Size() - m <= d
    ensures Wf(d, Halved(t, m, top, next), if top then sp.(h := sp.h + 1) else sp)
  {
    CutWf(d, t, m, sp, next, next + 1);
    Two(d, CutKey(t, m), CutLeft(t, m, next), CutRight(t, m, next + 1), sp);
  }

  // ---------------------------------------------------------------- updates

  lemma InsertSorted(keys: seq<int>, i: nat, k: int)
    requires Sorted(keys) && i <= |keys|
    requires forall j :: 0 <= j < i ==> keys[j] < k
    requires forall j :: i <= j < |keys| ==> k < keys[j]
    ensures Sorted(InsertAt(keys, i, k))
    ensures forall j :: 0 <= j <= |keys| ==> InsertAt(keys, i, k)[j] == k || InsertAt(keys, i, k)[j] in keys
  {
    var ks := InsertAt(keys, i, k);
    assert forall j :: 0 <= j < i ==> ks[j] == keys[j];
    assert ks[i] == k;
    assert forall j :: i < j < |ks| ==> ks[j] == keys[j - 1];
  }

  lemma InsertedFilled(d: Degree, l: Node, k: int, v: int, id: nat, sp: Span)
    requires l.Leaf? && Wf(d, l, sp) && sp.Has(k) && !HasKey(l, k)
    ensures Filled(d, Inserted(l, k, v, id), sp)
    ensures Inserted(l, k, v, id).Size() == l.Size() + 1
  {
    var i := KeyIndex(l.keys, k);
    assert forall j :: i < j < |l.keys| ==> l.keys[i] < l.keys[j];
    InsertSorted(l.keys, i, k);
  }

  lemma PutWf(d: Degree, l: Node, k: int, v: int, top: bool, next: nat, sp: Span) returns (h: int)
    requires l.Leaf? && Wf(d, l, sp) && sp.Has(k)
    ensures Wf(d, PutPatch(d, l, k, v, top, next).node, sp.(h := h))
    ensures !top ==> h == sp.h
    ensures top ==> PutPatch(d, l, k, v, top, next).node.weight
  {
    h := sp.h;
    if !HasKey(l, k) {
      InsertedFilled(d, l, k, v, next, sp);
      if |l.keys| == d {
        HalvedWf(d, Inserted(l, k, v, next), (d + 1) / 2, top, next, sp);
        h := if top then sp.h + 1 else sp.h;
      }
    }
  }

  lemma DelWf(d: Degree, l: Node, k: int, next: nat, sp: Span)
    requires l.Leaf? && Wf(d, l, sp) && HasKey(l, k)
    ensures Wf(d, DelPatch(l, k, next).node, sp)
  {
    var i := KeyIndex(l.keys, k);
    var ks := RemoveAt(l.keys, i);
    assert forall j :: 0 <= j < i ==> ks[j] == l.keys[j];
    assert forall j :: i < j < |l.keys| ==> ks[j - 1] == l.keys[j];
  }

  // ------------------------------------------------------------- rebalancing

  lemma MergedFan(d: Degree, p: Node, ix: nat, n: nat, sp: Span)
    requires Wf(d, p, sp) && CanFixWeight(d, p, ix)
    ensures var t := Merged(p, ix, n);
            Fan(d, t.keys, t.kids, sp.(h := sp.h - 1)) && |t.kids| == |p.kids| + 1
  {
    var l, fsp := p.kids[ix], sp.(h := sp.h - 1);
    var lsp := Slot(p.keys, fsp, ix);
    assert Wf(d, l, lsp) && lsp.(h := lsp.h - l.W()) == lsp;
    Splice(d, p.keys, p.kids, fsp, ix, l.keys, l.kids);
  }

  lemma WeightWf(d: Degree, p: Node, ix: nat, top: bool, next: nat, sp: Span) returns (h: int)
    requires Wf(d, p, sp) && CanFixWeight(d, p, ix)
    ensures Wf(d, WeightPatch(d, p, ix, top, next).node, sp.(h := h))
    ensures !top ==> h == sp.h
    ensures top ==> WeightPatch(d, p, ix, top, next).node.weight
  {
    MergedFan(d, p, ix, next, sp);
    h := sp.h;
    if |p.kids| + 1 > d {
      HalvedWf(d, Merged(p, ix, next), (|p.kids| + 1) / 2, top, next, sp);
      h := if top then sp.h + 1 else sp.h;
    }
  }

  lemma JoinedFilled(d: Degree, p: Node, i: nat, n: nat, sk: int, sp: Span)
    requires Wf(d, p, sp) && IsInternal(p) && p.weight && i < |p.keys|
    requires p.kids[i].Leaf? == p.kids[i + 1].Leaf? && p.kids[i].weight && p.kids[i + 1].weight
    ensures Filled(d, Joined(p, i, n, sk), Both(p.keys, sp.(h := sp.h - 1), i))
    ensures IsJoin(Joined(p, i, n, sk), p.kids[i], p.kids[i + 1], p.keys[i])
    ensures Joined(p, i, n, sk).Size() == p.kids[i].Size() + p.kids[i + 1].Size()
  {
    var left, right, fsp, s := p.kids[i], p.kids[i + 1], sp.(h := sp.h - 1), p.keys[i];
    var b := Both(p.keys, fsp, i);
    assert b.Inside(s) by {
      assert i > 0 ==> p.keys[i - 1] < s;
      assert i + 1 < |p.keys| ==> s < p.keys[i + 1];
    }
    assert Slot(p.keys, fsp, i) == b.(hi := Some(s)) && Slot(p.keys, fsp, i + 1) == b.(lo := Some(s));
    assert Wf(d, left, b.(hi := Some(s))) && Wf(d, right, b.(lo := Some(s)));
    if left.Leaf? {
      PairsJoin(d, left.keys, left.vals, s, right.keys, right.vals, b);
    } else {
      Join(d, left.keys, left.kids, s, right.keys, right.kids, b.(h := b.h - 1));
    }
  }

  lemma JoinedWf(d: Degree, p: Node, ix: nat, n: nat, sp: Span)
    requires Wf(d, p, sp) && CanFixDegree(d, p, ix)
    requires p.kids[ix].Size() + p.kids[Sibling(ix)].Size() < 2 * MinDegree(d)
    ensures Wf(d, Joined(p, LeftOf(ix), n, p.kids[ix].searchKey), Both(p.keys, sp.(h := sp.h - 1), LeftOf(ix)))
  {
    JoinedFilled(d, p, LeftOf(ix), n, p.kids[ix].searchKey, sp);
    assert Wf(d, p.kids[ix], Slot(p.keys, sp.(h := sp.h - 1), ix));
  }

  lemma DegreeWf(d: Degree, p: Node, ix: nat, top: bool, next: nat, sp: Span) returns (h: int)
    requires Wf(d, p, sp) && CanFixDegree(d, p, ix)
    ensures Wf(d, DegreePatch(d, p, ix, top, next).node, sp.(h := h))
    ensures !top ==> h == sp.h
    ensures top ==> DegreePatch(d, p, ix, top, next).node.weight
  {
    hide Wf, AbsorbSiblingPatch, DistributePatch;
    if p.kids[ix].Size() + p.kids[Sibling(ix)].Size() < 2 * MinDegree(d) {
      h := AbsorbWf(d, p, ix, top, next, sp);
    } else {
      h := sp.h;
      DistributeWf(d, p, ix, next, sp);
    }
  }

  lemma AbsorbWf(d: Degree, p: Node, ix: nat, top: bool, next: nat, sp: Span) returns (h: int)
    requires Wf(d, p, sp) && CanFixDegree(d, p, ix)
    requires p.kids[ix].Size() + p.kids[Sibling(ix)].Size() < 2 * MinDegree(d)
    ensures Wf(d, AbsorbSiblingPatch(d, p, ix, top, next).node, sp.(h := h))
    ensures !top ==> h == sp.h
    ensures top ==> AbsorbSiblingPatch(d, p, ix, top, next).node.weight
  {
    var i, fsp := LeftOf(ix), sp.(h := sp.h - 1);
    var newl := Joined(p, i, next, p.kids[ix].searchKey);
    h := sp.h;
    JoinedWf(d, p, ix, next, sp);
    if top && |p.kids| == 2 {
      h := sp.h - 1;
      assert Both(p.keys, fsp, i) == fsp;
    } else {
      Merge(d, p.keys, p.kids, fsp, i, newl);
    }
  }

  lemma DistributeWf(d: Degree, p: Node, ix: nat, next: nat, sp: Span)
    requires Wf(d, p, sp) && CanFixDegree(d, p, ix)
    requires p.kids[ix].Size() + p.kids[Sibling(ix)].Size() >= 2 * MinDegree(d)
    ensures Wf(d, DistributePatch(d, p, ix, next).node, sp)
    ensures DistributePatch(d, p, ix, next).node.weight
  {
    var i, fsp := LeftOf(ix), sp.(h := sp.h - 1);
    var big := Joined(p, i, next, p.searchKey);
    var m := big.Size() / 2;
    JoinedFilled(d, p, i, next, p.searchKey, sp);
    CutWf(d, big, m, Both(p.keys, fsp, i), next + 1, next + 2);
    Reseat(d, p.keys, p.kids, fsp, i, CutKey(big, m), CutLeft(big, m, next + 1), CutRight(big, m, next + 2));
  }

  // -------------------------------------- the steps' guards are all they need

  lemma WeightGuard(d: Degree, p: Node, ix: nat, sp: Span)
    requires Wf(d, p, sp) && p.Internal? && p.weight && ix < |p.kids| && !p.kids[ix].weight
    ensures CanFixWeight(d, p, ix)
  {
    WfShape(d, p.kids[ix], Slot(p.keys, sp.(h := sp.h - 1), ix));
  }

  /** Siblings of weight 1 are both leaves or both internal. */
  lemma SiblingsAlike(d: Degree, p: Node, i: nat, j: nat, sp: Span)
    requires Wf(d, p, sp) && p.Internal? && i < |p.kids| && j < |p.kids|
    requires p.kids[i].weight && p.kids[j].weight
    ensures p.kids[i].Leaf? == p.kids[j].Leaf?
  {
    var fsp := sp.(h := sp.h - p.W());
    WfWSum(d, p.kids[i], Slot(p.keys, fsp, i));
    WfWSum(d, p.kids[j], Slot(p.keys, fsp, j));
  }

  lemma DegreeGuard(d: Degree, p: Node, ix: nat, sp: Span)
    requires Wf(d, p, sp) && p.Internal? && p.weight && ix < |p.kids| && |p.kids| >= 2
    requires p.kids[ix].weight && p.kids[Sibling(ix)].weight && p.kids[ix].Size() < MinDegree(d)
    ensures CanFixDegree(d, p, ix)
  {
    SiblingsAlike(d, p, ix, Sibling(ix), sp);
    var fsp := sp.(h := sp.h - 1);
    WfShape(d, p.kids[ix], Slot(p.keys, fsp, ix));
    WfShape(d, p.kids[Sibling(ix)], Slot(p.keys, fsp, Sibling(ix)));
  }
}
