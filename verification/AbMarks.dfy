/** Which nodes a step gives a mark: weight 0, too few entries, leaf or internal.
    Nodes that were there before keep what they are. */
module AbMarks {
  import opened AbNodes
  import opened AbPatches
  import opened AbCountProofs
  import opened AbOutcomes
  import opened AbPaths
  import opened AbSystem

  ghost predicate Has(t: Node, id: nat, m: Mark) {
    Count(Marked(id, m), t, 0) > 0
  }

  // ----------------------------------------------------------- marks in one tree

  lemma {:induction false} MarkedIsLinked(t: Node, id: nat, m: Mark, depth: nat)
    ensures Count(Marked(id, m), t, depth) <= Count(Address(id), t, depth)
    decreases t, 1
  {
    if t.Internal? {
      MarkedInForest(t.kids, id, m, depth + t.W());
    }
  }

  lemma {:induction false} MarkedInForest(kids: seq<Node>, id: nat, m: Mark, depth: nat)
    ensures CountF(Marked(id, m), kids, depth) <= CountF(Address(id), kids, depth)
    decreases kids, 0
  {
    if kids != [] {
      MarkedIsLinked(kids[0], id, m, depth);
      MarkedInForest(kids[1..], id, m, depth);
    }
  }

  /** A node too small and of weight 1 is too small, and a violation. */
  lemma {:induction false} ThinIsSmall(t: Node, id: nat, a: nat, depth: nat)
    ensures Count(Marked(id, ThinNode(a)), t, depth) <= Count(Marked(id, SmallNode(a)), t, depth)
    decreases t, 1
  {
    if t.Internal? {
      ThinIsSmallForest(t.kids, id, a, depth + t.W());
    }
  }

  lemma {:induction false} ThinIsSmallForest(kids: seq<Node>, id: nat, a: nat, depth: nat)
    ensures CountF(Marked(id, ThinNode(a)), kids, depth) <= CountF(Marked(id, SmallNode(a)), kids, depth)
    decreases kids, 0
  {
    if kids != [] {
      ThinIsSmall(kids[0], id, a, depth);
      ThinIsSmallForest(kids[1..], id, a, depth);
    }
  }

  /** A node is a leaf or internal. */
  lemma {:induction false} LeafOrInner(t: Node, id: nat, depth: nat)
    ensures Count(Marked(id, LeafNode), t, depth) + Count(Marked(id, InnerNode), t, depth) == Count(Address(id), t, depth)
    decreases t, 1
  {
    if t.Internal? {
      LeafOrInnerForest(t.kids, id, depth + t.W());
    }
  }

  lemma {:induction false} LeafOrInnerForest(kids: seq<Node>, id: nat, depth: nat)
    ensures CountF(Marked(id, LeafNode), kids, depth) + CountF(Marked(id, InnerNode), kids, depth)
            == CountF(Address(id), kids, depth)
    decreases kids, 0
  {
    if kids != [] {
      LeafOrInner(kids[0], id, depth);
      LeafOrInnerForest(kids[1..], id, depth);
    }
  }

  /** The node at a place bears its marks in the whole tree. */
  lemma MarkedAt(t: Node, path: seq<nat>, m: Mark)
    requires Valid(t, path) && Bears(Under(t, path), m)
    ensures Has(t, Under(t, path).id, m) && Linked(t, Under(t, path).id)
  {
    var x, e := Under(t, path), DepthAt(t, path, 0);
    OwnCount(Marked(x.id, m), x, e);
    UnderCount(Marked(x.id, m), t, path, 0);
    MarkedIsLinked(t, x.id, m, 0);
  }

  /** And only the node with that address can bear it. */
  lemma {:induction false} MarkedPlace(t: Node, id: nat, m: Mark, depth: nat) returns (path: seq<nat>)
    requires Count(Marked(id, m), t, depth) > 0
    ensures Valid(t, path) && Under(t, path).id == id && Bears(Under(t, path), m)
    decreases t
  {
    if t.id == id && Bears(t, m) {
      path := [];
    } else {
      var i := MarkedKid(t.kids, id, m, depth + t.W());
      var rest := MarkedPlace(t.kids[i], id, m, depth + t.W());
      path := [i] + rest;
      assert path[1..] == rest;
    }
  }

  lemma {:induction false} MarkedKid(kids: seq<Node>, id: nat, m: Mark, depth: nat) returns (i: nat)
    requires CountF(Marked(id, m), kids, depth) > 0
    ensures i < |kids| && Count(Marked(id, m), kids[i], depth) > 0
  {
    if Count(Marked(id, m), kids[0], depth) > 0 {
      i := 0;
    } else {
      var j := MarkedKid(kids[1..], id, m, depth);
      i := j + 1;
    }
  }

  // ------------------------------------------------------------ marks in a patch

  /** A mark that none of the halves of a cut can bear: one of an older node, or a violation. */
  predicate Foreign(q: Stat, d: Degree, next: nat) {
    q.Marked? && (q.id < next || q.mark == LightNode || q.mark == ThinNode(MinDegree(d)))
  }

  lemma ForeignHalf(q: Stat, d: Degree, next: nat, x: Node, depth: nat)
    requires Foreign(q, d, next) && next <= x.id && x.weight && x.Size() >= MinDegree(d)
    ensures Own(q, x, depth) == 0
  {
  }

  lemma PutMarks(q: Stat, d: Degree, l: Node, k: int, v: int, top: bool, next: nat, depth: nat)
    requires IsLeaf(l) && |l.keys| <= d && Foreign(q, d, next)
    ensures var n := PutPatch(d, l, k, v, top, next).node;
            Count(q, n, depth) <= Count(q, l, depth) + Own(q, n, depth)
  {
    if !HasKey(l, k) && |l.keys| == d {
      hide Count, CountF, Own;
      var t, m := Inserted(l, k, v, next), (d + 1) / 2;
      var n := Halved(t, m, top, next);
      HalvedCount(q, t, m, top, next, depth);
      KidsCount(q, n, depth);
      CutShares(t, m, next, next + 1);
      ForeignHalf(q, d, next, n.kids[0], depth + n.W());
      ForeignHalf(q, d, next, n.kids[1], depth + n.W());
      NoCount(q, t.Kids(), depth + n.W() + 1);
    }
  }

  lemma DelMarks(q: Stat, d: Degree, l: Node, k: int, next: nat, depth: nat)
    requires IsLeaf(l) && HasKey(l, k)
    ensures var n := DelPatch(l, k, next).node;
            Count(q, n, depth) <= Count(q, l, depth) + Own(q, n, depth)
  {
  }

  lemma WeightMarks(q: Stat, d: Degree, p: Node, ix: nat, top: bool, next: nat, depth: nat)
    requires CanFixWeight(d, p, ix) && Foreign(q, d, next)
    ensures var n := WeightPatch(d, p, ix, top, next).node;
            Count(q, n, depth) <= Count(q, p, depth) + Own(q, n, depth)
  {
    hide Count, CountF, Own, Merged;
    var n := WeightPatch(d, p, ix, top, next).node;
    var rest := WeightCount(q, d, p, ix, top, next, depth);
    CountDeeper(q, rest, depth + 1, depth + n.W() + 1);
    CountDeeper(q, rest, depth + n.W(), depth + 1);
    if |p.kids| + 1 > d {
      MergedCut(d, p, ix, next);
      var t, m := Merged(p, ix, next), (|p.kids| + 1) / 2;
      CutShares(t, m, next, next + 1);
      ForeignHalf(q, d, next, n.kids[0], depth + n.W());
      ForeignHalf(q, d, next, n.kids[1], depth + n.W());
    }
  }

  lemma MergedCut(d: Degree, p: Node, ix: nat, next: nat)
    requires CanFixWeight(d, p, ix) && |p.kids| + 1 > d
    ensures var t, m := Merged(p, ix, next), (|p.kids| + 1) / 2;
            CanCut(t, m) && MinDegree(d) <= m && MinDegree(d) <= t.Size() - m
  {
  }

  lemma DegreeMarks(q: Stat, d: Degree, p: Node, ix: nat, top: bool, next: nat, depth: nat)
    requires CanFixDegree(d, p, ix) && Foreign(q, d, next)
    ensures var n, newl := DegreePatch(d, p, ix, top, next).node, Joined(p, LeftOf(ix), next, p.kids[ix].searchKey);
            Count(q, n, depth) <= Count(q, p, depth) + Own(q, n, depth) +
              if p.kids[ix].Size() + p.kids[Sibling(ix)].Size() < 2 * MinDegree(d) then Own(q, newl, depth + 1) else 0
  {
    hide Count, CountF, Own, Joined;
    var i := LeftOf(ix);
    if p.kids[ix].Size() + p.kids[Sibling(ix)].Size() < 2 * MinDegree(d) {
      AbsorbMarks(q, d, p, ix, top, next, depth);
    } else {
      hide CutLeft, CutRight, CutKey, CanCut;
      var n := DistributePatch(d, p, ix, next).node;
      DegreeBefore(q, d, p, ix, next, p.searchKey, depth);
      DistributeCount(q, d, p, ix, next, depth);
      DistributeIds(d, p, ix, next);
      ForeignHalf(q, d, next, n.kids[i], depth + 1);
      ForeignHalf(q, d, next, n.kids[i + 1], depth + 1);
    }
  }

  lemma AbsorbMarks(q: Stat, d: Degree, p: Node, ix: nat, top: bool, next: nat, depth: nat)
    requires CanFixDegree(d, p, ix) && Foreign(q, d, next)
    ensures var n := AbsorbSiblingPatch(d, p, ix, top, next).node;
            var newl := Joined(p, LeftOf(ix), next, p.kids[ix].searchKey);
            Count(q, n, depth) <= Count(q, p, depth) + Own(q, n, depth) + Own(q, newl, depth + 1)
  {
    hide Count, CountF, Own, Joined;
    var i, sk := LeftOf(ix), p.kids[ix].searchKey;
    DegreeBefore(q, d, p, ix, next, sk, depth);
    AbsorbSiblingCount(q, d, p, ix, top, next, depth);
    NoCount(q, p.kids[..i], depth + 1);
    NoCount(q, p.kids[i + 2..], depth + 1);
    CountDeeper(q, Joined(p, i, next, sk).Kids(), depth + 1, depth + 2);
  }

  // ------------------------------------------------------------- marks in a step

  /** The joined sibling of AbsorbSibling. */
  function Newl(d: Degree, s: State, act: Action): Node
    requires Enabled(d, s, act) && act.FixDegree?
  {
    var p := Under(s.root, act.path);
    Joined(p, LeftOf(act.ix), s.next, p.kids[act.ix].searchKey)
  }

  predicate Absorbs(d: Degree, s: State, act: Action)
    requires Enabled(d, s, act)
  {
    act.FixDegree? && var p := Under(s.root, act.path);
                      p.kids[act.ix].Size() + p.kids[Sibling(act.ix)].Size() < 2 * MinDegree(d)
  }

  lemma PatchMarks(d: Degree, s: State, act: Action, q: Stat)
    requires Inv(d, s) && Enabled(d, s, act) && Foreign(q, d, s.next)
    ensures var path, n := Place(s, act), Replacement(d, s, act).node;
            var e := DepthAt(s.root, path, 0);
            Count(q, n, e) <= Count(q, Under(s.root, path), e) + Own(q, n, e) +
              if Absorbs(d, s, act) then Own(q, Newl(d, s, act), e + 1) else 0
  {
    hide Count, CountF, Own;
    var path := Place(s, act);
    var p, top, e := Under(s.root, path), path == [], DepthAt(s.root, path, 0);
    match act
    case Put(k, v) =>
      PutMarks(q, d, p, k, v, top, s.next, e);
    case Del(k) =>
      DelMarks(q, d, p, k, s.next, e);
    case FixWeight(_, ix) =>
      WeightMarks(q, d, p, ix, top, s.next, e);
    case FixDegree(_, ix) =>
      DegreeMarks(q, d, p, ix, top, s.next, e);
  }

  /** After a step, a violation is an old one, or is at the new node or the joined sibling;
      and an older node bears no mark that it did not bear before. */
  lemma StepMarks(d: Degree, s: State, act: Action, id: nat, m: Mark)
    requires Inv(d, s) && Enabled(d, s, act) && Foreign(Marked(id, m), d, s.next)
    ensures var s', n := Next(d, s, act), Replacement(d, s, act).node;
            Has(s'.root, id, m) ==>
              || Has(s.root, id, m)
              || (id == n.id && Bears(n, m) && id >= s.next)
              || (Absorbs(d, s, act) && id == Newl(d, s, act).id && Bears(Newl(d, s, act), m) && id >= s.next)
  {
    assert Valid(s.root, Place(s, act));
    hide Inv, Enabled, Replacement, Newl, Count, Under, Graft, Bears;
    var path, n, q := Place(s, act), Replacement(d, s, act).node, Marked(id, m);
    PatchMarks(d, s, act, q);
    GraftCount(q, s.root, path, n, 0);
    NewIds(d, s, act);
  }

  lemma NewIds(d: Degree, s: State, act: Action)
    requires Inv(d, s) && Enabled(d, s, act)
    ensures Replacement(d, s, act).node.id >= s.next
    ensures Absorbs(d, s, act) ==> Newl(d, s, act).id == s.next && Newl(d, s, act).weight
  {
    hide Inv, Under;
    if act.FixDegree? {
      var p := Under(s.root, act.path);
      hide Joined, CutLeft, CutRight, CutKey;
      if Absorbs(d, s, act) {
        AbsorbSiblingIds(d, p, act.ix, act.path == [], s.next);
        JoinedShares(p, LeftOf(act.ix), s.next, p.kids[act.ix].searchKey);
      }
    }
  }
}
