/** Rebalancing is invisible to searches: every key still leads to the same
    values and to the same surviving nodes. */
module AbSearchProofs {
  import opened AbNodes
  import opened AbFans
  import opened AbOrderProofs
  import opened AbPatches

  lemma JoinIndex(lk: seq<int>, s: int, rk: seq<int>, k: int)
    requires Sorted(lk + [s] + rk)
    ensures ChildIndex(lk + [s] + rk, k) == if k < s then ChildIndex(lk, k) else |lk| + 1 + ChildIndex(rk, k)
  {
    hide ChildIndex;
    var ks := lk + [s] + rk;
    var r := if k < s then ChildIndex(lk, k) else |lk| + 1 + ChildIndex(rk, k);
    if r > 0 {
      JoinedAt(lk, s, rk, r - 1);
    }
    if r < |ks| {
      JoinedAt(lk, s, rk, r);
    }
    ChildIndexUnique(ks, k, r);
  }

  lemma JoinedAt(lk: seq<int>, s: int, rk: seq<int>, j: nat)
    requires j < |lk| + 1 + |rk|
    ensures (lk + [s] + rk)[j] == if j < |lk| then lk[j] else if j == |lk| then s else rk[j - |lk| - 1]
  {
  }

  lemma SpliceIndex(keys: seq<int>, ix: nat, lkeys: seq<int>, k: int)
    requires ix <= |keys| && Sorted(keys) && Sorted(keys[..ix] + lkeys + keys[ix..])
    ensures var c := ChildIndex(keys, k);
            ChildIndex(keys[..ix] + lkeys + keys[ix..], k) ==
            if c < ix then c else if c == ix then ix + ChildIndex(lkeys, k) else c + |lkeys|
  {
    hide ChildIndex;
    var ks, n, c, e := keys[..ix] + lkeys + keys[ix..], |lkeys|, ChildIndex(keys, k), ChildIndex(lkeys, k);
    var r := if c < ix then c else if c == ix then ix + e else c + n;
    if r > 0 {
      SplicedAt(keys, ix, lkeys, r - 1);
    }
    if r < |ks| {
      SplicedAt(keys, ix, lkeys, r);
    }
    ChildIndexUnique(ks, k, r);
  }

  lemma SplicedAt(keys: seq<int>, ix: nat, lkeys: seq<int>, j: nat)
    requires ix <= |keys| && j < |keys| + |lkeys|
    ensures (keys[..ix] + lkeys + keys[ix..])[j] ==
            if j < ix then keys[j] else if j < ix + |lkeys| then lkeys[j - ix] else keys[j - |lkeys|]
  {
  }

  lemma MergeIndex(keys: seq<int>, i: nat, k: int)
    requires i < |keys| && Sorted(keys)
    ensures var c := ChildIndex(keys, k);
            ChildIndex(keys[..i] + keys[i + 1..], k) == if c <= i then c else c - 1
  {
    hide ChildIndex, Sorted;
    var ks, c := keys[..i] + keys[i + 1..], ChildIndex(keys, k);
    var r := if c <= i then c else c - 1;
    RemovedSorted(keys, i);
    if r > 0 {
      RemovedAt(keys, i, r - 1);
    }
    if r < |ks| {
      RemovedAt(keys, i, r);
      assert r == i == c ==> keys[c] < keys[c + 1] by {
        NextKey(keys, c);
      }
    }
    ChildIndexUnique(ks, k, r);
  }

  lemma RemovedAt(keys: seq<int>, i: nat, j: nat)
    requires i < |keys| && j < |keys| - 1
    ensures (keys[..i] + keys[i + 1..])[j] == if j < i then keys[j] else keys[j + 1]
  {
  }

  lemma NextKey(keys: seq<int>, c: nat)
    requires Sorted(keys)
    ensures c + 1 < |keys| ==> keys[c] < keys[c + 1]
  {
  }

  lemma RemovedSorted(keys: seq<int>, i: nat)
    requires i < |keys| && Sorted(keys)
    ensures Sorted(keys[..i] + keys[i + 1..])
  {
    var ks := keys[..i] + keys[i + 1..];
    assert forall j :: 0 <= j < |ks| ==> ks[j] == keys[if j < i then j else j + 1];
  }

  lemma ReseatIndex(keys: seq<int>, i: nat, s: int, k: int)
    requires i < |keys| && Sorted(keys) && Sorted(keys[i := s])
    ensures var c, e := ChildIndex(keys, k), ChildIndex(keys[i := s], k);
            if c == i || c == i + 1 then e == (if k < s then i else i + 1) else e == c
  {
    var ks, c := keys[i := s], ChildIndex(keys, k);
    assert ks[i] == s;
    assert forall j :: 0 <= j < |keys| && j != i ==> ks[j] == keys[j];
    ChildIndexUnique(ks, k, if c != i && c != i + 1 then c else if k < s then i else i + 1);
  }

  /** Searching for k finds the same value and the same node `id` in t and in m. */
  ghost predicate Same(t: Node, m: Node, k: int, id: nat) {
    Lookup(t, k) == Lookup(m, k) && Locate(t, k, id) == Locate(m, k, id)
  }

  /** A node other than `id` only forwards the search to one of its children. */
  lemma SkipNode(t: Node, k: int, id: nat, i: nat)
    requires t.Internal? && t.id != id && i == ChildIndex(t.keys, k) < |t.kids|
    ensures Same(t, t.kids[i], k, id) && Same(t.kids[i], t, k, id)
  {
  }

  lemma SameSteps(x: Node, y: Node, z: Node, k: int, id: nat)
    requires Same(x, y, k, id) && Same(y, z, k, id)
    ensures Same(x, z, k, id)
  {
  }

  // --------------------------------------------------------------- cut and join

  lemma KeyIndexUnique(keys: seq<int>, k: int, r: nat)
    requires Sorted(keys) && r <= |keys|
    requires r > 0 ==> keys[r - 1] < k
    requires r < |keys| ==> k <= keys[r]
    ensures KeyIndex(keys, k) == r
  {
    assert forall j :: 0 <= j < r ==> keys[j] < k;
    var s := KeyIndex(keys, k);
  }

  lemma KeyAtEnd(keys: seq<int>, k: int)
    requires forall j :: 0 <= j < |keys| ==> keys[j] < k
    ensures KeyIndex(keys, k) == |keys|
  {
  }

  lemma LeafGetJoin(lk: seq<int>, lv: seq<int>, rk: seq<int>, rv: seq<int>, s: int, k: int)
    requires |lk| == |lv| && |rk| == |rv| && Sorted(lk) && Sorted(rk)
    requires forall i :: 0 <= i < |lk| ==> lk[i] < s
    requires forall i :: 0 <= i < |rk| ==> s <= rk[i]
    ensures LeafGet(lk + rk, lv + rv, k) == if k < s then LeafGet(lk, lv, k) else LeafGet(rk, rv, k)
  {
    AppendedSorted(lk, rk, s);
    if k < s {
      LeafGetLeft(lk, lv, rk, rv, s, k);
    } else {
      LeafGetRight(lk, lv, rk, rv, s, k);
    }
  }

  lemma LeafGetLeft(lk: seq<int>, lv: seq<int>, rk: seq<int>, rv: seq<int>, s: int, k: int)
    requires |lk| == |lv| && |rk| == |rv| && Sorted(lk + rk) && k < s
    requires |rk| > 0 ==> s <= rk[0]
    ensures LeafGet(lk + rk, lv + rv, k) == LeafGet(lk, lv, k)
  {
    hide KeyIndex, Sorted;
    var i := KeyIndex(lk, k);
    if i < |lk| {
      Appended(lk, rk, i);
      Appended(lv, rv, i);
    } else if |rk| > 0 {
      Appended(lk, rk, i);
    }
    if i > 0 {
      Appended(lk, rk, i - 1);
    }
    KeyIndexUnique(lk + rk, k, i);
  }

  lemma LeafGetRight(lk: seq<int>, lv: seq<int>, rk: seq<int>, rv: seq<int>, s: int, k: int)
    requires |lk| == |lv| && |rk| == |rv| && Sorted(lk + rk) && s <= k
    requires |lk| > 0 ==> lk[|lk| - 1] < s
    ensures LeafGet(lk + rk, lv + rv, k) == LeafGet(rk, rv, k)
  {
    hide KeyIndex, Sorted;
    var j := KeyIndex(rk, k);
    if j < |rk| {
      Appended(lk, rk, |lk| + j);
      Appended(lv, rv, |lk| + j);
    }
    if |lk| + j > 0 {
      Appended(lk, rk, |lk| + j - 1);
    }
    KeyIndexUnique(lk + rk, k, |lk| + j);
  }

  lemma Appended(x: seq<int>, y: seq<int>, j: nat)
    requires j < |x| + |y|
    ensures (x + y)[j] == if j < |x| then x[j] else y[j - |x|]
  {
  }

  lemma AppendedSorted(lk: seq<int>, rk: seq<int>, s: int)
    requires Sorted(lk) && Sorted(rk)
    requires forall i :: 0 <= i < |lk| ==> lk[i] < s
    requires forall i :: 0 <= i < |rk| ==> s <= rk[i]
    ensures Sorted(lk + rk)
  {
  }

  lemma JoinSame(t: Node, left: Node, right: Node, s: int, k: int, id: nat)
    requires IsJoin(t, left, right, s)
    requires id != t.id && id != left.id && id != right.id
    ensures Same(t, if k < s then left else right, k, id)
  {
    if t.Leaf? {
      LeafGetJoin(left.keys, left.vals, right.keys, right.vals, s, k);
    } else {
      JoinIndex(left.keys, s, right.keys, k);
      var h, i := if k < s then left else right, ChildIndex(t.keys, k);
      var j := ChildIndex(h.keys, k);
      SkipNode(t, k, id, i);
      SkipNode(h, k, id, j);
      SameSteps(t, t.kids[i], h, k, id);
    }
  }

  lemma CutIsJoin(t: Node, m: nat, x: nat, y: nat)
    requires CanCut(t, m) && Sorted(t.keys)
    ensures IsJoin(t, CutLeft(t, m, x), CutRight(t, m, y), CutKey(t, m))
  {
    if t.Leaf? {
      assert t.keys == t.keys[..m] + t.keys[m..] && t.vals == t.vals[..m] + t.vals[m..];
    } else {
      assert t.keys == t.keys[..m - 1] + [t.keys[m - 1]] + t.keys[m..];
      assert t.kids == t.kids[..m] + t.kids[m..];
    }
  }

  lemma HalvedSame(t: Node, m: nat, top: bool, next: nat, k: int, id: nat)
    requires CanCut(t, m) && Sorted(t.keys)
    requires id != t.id && (id < next || next + 3 <= id)
    ensures Same(t, Halved(t, m, top, next), k, id)
  {
    var n, s := Halved(t, m, top, next), CutKey(t, m);
    CutIsJoin(t, m, next, next + 1);
    JoinSame(t, n.kids[0], n.kids[1], s, k, id);
    var i := ChildIndex(n.keys, k);
    ChildIndexUnique([s], k, if k < s then 0 else 1);
    SkipNode(n, k, id, i);
    SameSteps(t, n.kids[i], n, k, id);
  }

  // ----------------------------------------------------------------- weight steps

  lemma MergedSame(p: Node, ix: nat, n: nat, k: int, id: nat)
    requires IsInternal(p) && ix < |p.kids| && IsInternal(p.kids[ix]) && |p.kids[ix].kids| == 2
    requires Sorted(p.keys) && Sorted(Merged(p, ix, n).keys)
    requires id != p.id && id != p.kids[ix].id && id != n
    ensures Same(p, Merged(p, ix, n), k, id)
  {
    var t, l, c := Merged(p, ix, n), p.kids[ix], ChildIndex(p.keys, k);
    var e := ChildIndex(t.keys, k);
    SpliceIndex(p.keys, ix, l.keys, k);
    SpliceSlot(p.keys, p.kids, Span(None, None, 0), ix, l.keys, l.kids, e);
    SkipNode(t, k, id, e);
    SkipNode(p, k, id, c);
    if c == ix {
      var e2 := ChildIndex(l.keys, k);
      SkipNode(l, k, id, e2);
      SameSteps(p, l, l.kids[e2], k, id);
    }
    SameSteps(p, t.kids[e], t, k, id);
  }

  lemma WeightSame(d: Degree, p: Node, ix: nat, top: bool, next: nat, k: int, id: nat)
    requires CanFixWeight(d, p, ix) && Sorted(p.keys) && Sorted(Merged(p, ix, next).keys)
    requires id != p.id && id != p.kids[ix].id
    requires id < next || WeightPatch(d, p, ix, top, next).next <= id
    ensures Same(p, WeightPatch(d, p, ix, top, next).node, k, id)
  {
    hide Same, ChildIndex, Lookup, Locate;
    MergedSame(p, ix, next, k, id);
    if |p.kids| + 1 > d {
      var t := Merged(p, ix, next);
      HalvedSame(t, |t.kids| / 2, top, next, k, id);
      SameSteps(p, t, WeightPatch(d, p, ix, top, next).node, k, id);
    }
  }

  // ----------------------------------------------------------------- degree steps

  /** x stands for children i and i+1 of p: the search from p through either reaches it. */
  lemma ThroughPair(p: Node, i: nat, x: Node, k: int, id: nat)
    requires IsInternal(p) && i < |p.keys| && Sorted(p.keys)
    requires IsJoin(x, p.kids[i], p.kids[i + 1], p.keys[i])
    requires id != p.id && id != p.kids[i].id && id != p.kids[i + 1].id && id != x.id
    requires ChildIndex(p.keys, k) == i || ChildIndex(p.keys, k) == i + 1
    ensures Same(p, x, k, id)
  {
    var c := ChildIndex(p.keys, k);
    SkipNode(p, k, id, c);
    JoinSame(x, p.kids[i], p.kids[i + 1], p.keys[i], k, id);
    SameSteps(p, p.kids[c], x, k, id);
  }

  lemma MergeSame(p: Node, i: nat, x: Node, n: Node, k: int, id: nat)
    requires IsInternal(p) && i < |p.keys| && Sorted(p.keys)
    requires IsJoin(x, p.kids[i], p.kids[i + 1], p.keys[i])
    requires id != p.id && id != p.kids[i].id && id != p.kids[i + 1].id && id != x.id && id != n.id
    requires n.Internal? && n.keys == p.keys[..i] + p.keys[i + 1..] && n.kids == p.kids[..i] + [x] + p.kids[i + 2..]
    ensures Same(p, n, k, id)
  {
    hide Sorted, IsJoin, Same;
    var c, e := ChildIndex(p.keys, k), ChildIndex(n.keys, k);
    MergeIndex(p.keys, i, k);
    hide ChildIndex;
    assert n.kids[e] == if e == i then x else p.kids[c];
    SkipNode(n, k, id, e);
    if c == i || c == i + 1 {
      ThroughPair(p, i, x, k, id);
    } else {
      SkipNode(p, k, id, c);
    }
    SameSteps(p, n.kids[e], n, k, id);
  }

  lemma ReseatSame(p: Node, i: nat, big: Node, x: Node, s: int, y: Node, n: Node, k: int, id: nat)
    requires IsInternal(p) && i < |p.keys| && Sorted(p.keys) && Sorted(n.keys)
    requires IsJoin(big, p.kids[i], p.kids[i + 1], p.keys[i]) && IsJoin(big, x, y, s)
    requires id != p.id && id != p.kids[i].id && id != p.kids[i + 1].id
    requires id != big.id && id != x.id && id != y.id && id != n.id
    requires n.Internal? && n.keys == p.keys[i := s] && n.kids == p.kids[i := x][i + 1 := y]
    ensures Same(p, n, k, id)
  {
    var c, e := ChildIndex(p.keys, k), ChildIndex(n.keys, k);
    ReseatIndex(p.keys, i, s, k);
    SkipNode(n, k, id, e);
    if c == i || c == i + 1 {
      ThroughPair(p, i, big, k, id);
      JoinSame(big, x, y, s, k, id);
      SameSteps(p, big, n.kids[e], k, id);
    } else {
      SkipNode(p, k, id, c);
    }
    SameSteps(p, n.kids[e], n, k, id);
  }

  /** newl standing alone is the new root: p had no other children. */
  lemma RootAbsorbSame(p: Node, x: Node, k: int, id: nat)
    requires IsInternal(p) && |p.kids| == 2 && Sorted(p.keys)
    requires IsJoin(x, p.kids[0], p.kids[1], p.keys[0])
    requires id != p.id && id != p.kids[0].id && id != p.kids[1].id && id != x.id
    ensures Same(p, x, k, id)
  {
    ThroughPair(p, 0, x, k, id);
  }

  lemma DegreeSame(d: Degree, p: Node, ix: nat, top: bool, next: nat, sp: Span, k: int, id: nat)
    requires Wf(d, p, sp) && CanFixDegree(d, p, ix)
    requires Sorted(DegreePatch(d, p, ix, top, next).node.keys)
    requires id != p.id && id != p.kids[ix].id && id != p.kids[Sibling(ix)].id
    requires id < next || DegreePatch(d, p, ix, top, next).next <= id
    ensures Same(p, DegreePatch(d, p, ix, top, next).node, k, id)
  {
    hide Same, ChildIndex, Lookup, Locate, Wf;
    if p.kids[ix].Size() + p.kids[Sibling(ix)].Size() < 2 * MinDegree(d) {
      AbsorbSame(d, p, ix, top, next, sp, k, id);
    } else {
      DistributeSame(d, p, ix, next, sp, k, id);
    }
  }

  lemma AbsorbSame(d: Degree, p: Node, ix: nat, top: bool, next: nat, sp: Span, k: int, id: nat)
    requires Wf(d, p, sp) && CanFixDegree(d, p, ix)
    requires id != p.id && id != p.kids[ix].id && id != p.kids[Sibling(ix)].id
    requires id < next || AbsorbSiblingPatch(d, p, ix, top, next).next <= id
    ensures Same(p, AbsorbSiblingPatch(d, p, ix, top, next).node, k, id)
  {
    hide Same, ChildIndex, Lookup, Locate;
    var i, n, sk := LeftOf(ix), AbsorbSiblingPatch(d, p, ix, top, next).node, p.kids[ix].searchKey;
    JoinedFilled(d, p, i, next, sk, sp);
    if top && |p.kids| == 2 {
      RootAbsorbSame(p, n, k, id);
    } else {
      MergeSame(p, i, Joined(p, i, next, sk), n, k, id);
    }
  }

  lemma DistributeSame(d: Degree, p: Node, ix: nat, next: nat, sp: Span, k: int, id: nat)
    requires Wf(d, p, sp) && CanFixDegree(d, p, ix)
    requires p.kids[ix].Size() + p.kids[Sibling(ix)].Size() >= 2 * MinDegree(d)
    requires Sorted(DistributePatch(d, p, ix, next).node.keys)
    requires id != p.id && id != p.kids[ix].id && id != p.kids[Sibling(ix)].id
    requires id < next || next + 3 <= id
    ensures Same(p, DistributePatch(d, p, ix, next).node, k, id)
  {
    hide Same, ChildIndex, Lookup, Locate, IsJoin, Sorted, Wf, Joined, CutLeft, CutRight, CutKey;
    var i, n := LeftOf(ix), DistributePatch(d, p, ix, next).node;
    var big := Joined(p, i, next, p.searchKey);
    var m := big.Size() / 2;
    JoinedFilled(d, p, i, next, p.searchKey, sp);
    WfShape(d, p, sp);
    JoinedSorted(p, i, big);
    HalvesIds(d, p, ix, next);
    CutIsJoin(big, m, next + 1, next + 2);
    ReseatSame(p, i, big, CutLeft(big, m, next + 1), CutKey(big, m), CutRight(big, m, next + 2), n, k, id);
  }

  lemma HalvesIds(d: Degree, p: Node, ix: nat, next: nat)
    requires CanFixDegree(d, p, ix)
    requires p.kids[ix].Size() + p.kids[Sibling(ix)].Size() >= 2 * MinDegree(d)
    ensures var big := Joined(p, LeftOf(ix), next, p.searchKey);
            var m := big.Size() / 2;
            && big.id == next && CanCut(big, m)
            && CutLeft(big, m, next + 1).id == next + 1 && CutRight(big, m, next + 2).id == next + 2
  {
  }

  lemma JoinedSorted(p: Node, i: nat, big: Node)
    requires IsInternal(p) && i < |p.keys| && IsJoin(big, p.kids[i], p.kids[i + 1], p.keys[i])
    ensures Sorted(big.keys)
  {
  }
}
