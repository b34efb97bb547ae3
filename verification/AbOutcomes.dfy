/** The outcome of each replacement in numbers: which addresses change hands,
    that repairs make progress, and how many violations can be left. */
module AbOutcomes {
  import opened AbNodes
  import opened AbPatches
  import opened AbCountProofs

  /** Lexicographically lower: fewer zero weights, or these nearer to the root,
      or fewer nodes, or fewer nodes below the minimum. */
  predicate Lower(a: nat, n: Node, p: Node, depth: nat) {
    var z, s := Count(Zeros, n, depth) - Count(Zeros, p, depth), Count(Dist, n, depth) - Count(Dist, p, depth);
    var c, m := Count(Nodes, n, depth) - Count(Nodes, p, depth), Count(Small(a), n, depth) - Count(Small(a), p, depth);
    z < 0 || (z == 0 && (s < 0 || (s == 0 && (c < 0 || (c == 0 && m < 0)))))
  }

  /** Violations in a whole tree, whose root is allowed to be small. */
  function Violations(a: nat, t: Node): nat {
    CountF(Bad(a), t.Kids(), 0)
  }

  function Fresh(lo: nat, hi: nat, id: nat): nat {
    if lo <= id < hi then 1 else 0
  }

  /** The patch links exactly its fresh addresses and unlinks exactly the retired ones. */
  ghost predicate Balanced(p: Node, s: Patch, next: nat, id: nat, depth: nat) {
    Count(Address(id), s.node, depth) + multiset(s.retired)[id] == Count(Address(id), p, depth) + Fresh(next, s.next, id)
  }

  lemma Depthless(q: Stat, t: Node, x: nat, y: nat)
    requires q != Dist
    ensures Count(q, t, x) == Count(q, t, y)
  {
    CountDeeper(q, t.Kids(), if x < y then x + t.W() else y + t.W(), if x < y then y + t.W() else x + t.W());
    KidsCount(q, t, x);
    KidsCount(q, t, y);
  }

  lemma RootViolations(a: nat, t: Node)
    ensures Count(Bad(a), t, 0) == Own(Bad(a), t, 0) + Violations(a, t)
  {
    KidsCount(Bad(a), t, 0);
    CountDeeper(Bad(a), t.Kids(), 0, t.W());
  }

  // ---------------------------------------------------------------- updates

  lemma PutOutcome(d: Degree, l: Node, k: int, v: int, top: bool, next: nat, depth: nat, id: nat)
    requires IsLeaf(l) && |l.keys| <= d && l.weight
    ensures var s := PutPatch(d, l, k, v, top, next);
            && Balanced(l, s, next, id, depth)
            && Count(Bad(MinDegree(d)), s.node, depth) == Own(Bad(MinDegree(d)), s.node, depth)
            && Violations(MinDegree(d), s.node) == 0
  {
    if !HasKey(l, k) && |l.keys| == d {
      OverflowOutcome(d, l, k, v, top, next, depth, id);
    }
  }

  lemma OverflowOutcome(d: Degree, l: Node, k: int, v: int, top: bool, next: nat, depth: nat, id: nat)
    requires IsLeaf(l) && |l.keys| == d && l.weight && !HasKey(l, k)
    ensures var s := PutPatch(d, l, k, v, top, next);
            && Balanced(l, s, next, id, depth)
            && Count(Bad(MinDegree(d)), s.node, depth) == Own(Bad(MinDegree(d)), s.node, depth)
            && Violations(MinDegree(d), s.node) == 0
  {
    var n := PutPatch(d, l, k, v, top, next).node;
    var t, m := Inserted(l, k, v, next), (d + 1) / 2;
    HalvedCount(Address(id), t, m, top, next, depth);
    HalvedCount(Bad(MinDegree(d)), t, m, top, next, depth);
    KidsCount(Address(id), n, depth);
    KidsCount(Bad(MinDegree(d)), n, depth);
    CountDeeper(Bad(MinDegree(d)), n.kids, 0, depth + n.W());
    CutShares(t, m, next, next + 1);
  }

  lemma DelOutcome(d: Degree, l: Node, k: int, next: nat, depth: nat, id: nat)
    requires IsLeaf(l) && HasKey(l, k)
    ensures var s := DelPatch(l, k, next);
            && Balanced(l, s, next, id, depth)
            && Count(Bad(MinDegree(d)), s.node, depth) == Own(Bad(MinDegree(d)), s.node, depth)
            && Violations(MinDegree(d), s.node) == 0
  {
  }

  // ------------------------------------------------------------- rebalancing

  lemma WeightBalanced(d: Degree, p: Node, ix: nat, top: bool, next: nat, depth: nat, id: nat)
    requires CanFixWeight(d, p, ix)
    ensures Balanced(p, WeightPatch(d, p, ix, top, next), next, id, depth)
  {
    hide Count, CountF;
    var q := Address(id);
    var rest := WeightCount(q, d, p, ix, top, next, depth);
    CountDeeper(q, rest, depth + 1, depth + 2);
  }

  lemma WeightProgress(d: Degree, p: Node, ix: nat, top: bool, next: nat, depth: nat)
    requires CanFixWeight(d, p, ix) && (top ==> depth == 0)
    ensures Lower(MinDegree(d), WeightPatch(d, p, ix, top, next).node, p, depth)
  {
    hide Count, CountF;
    var rz := WeightCount(Zeros, d, p, ix, top, next, depth);
    var rd := WeightCount(Dist, d, p, ix, top, next, depth);
    CountDeeper(Zeros, rz, depth + 1, depth + 2);
  }

  lemma WeightBad(d: Degree, p: Node, ix: nat, top: bool, next: nat, depth: nat)
    requires CanFixWeight(d, p, ix)
    ensures var a, n := MinDegree(d), WeightPatch(d, p, ix, top, next).node;
            && Count(Bad(a), n, depth) + 1 <= Count(Bad(a), p, depth) + Own(Bad(a), n, depth)
            && Violations(a, n) + 1 <= Violations(a, p)
  {
    hide Count, CountF, Violations;
    var a, n := MinDegree(d), WeightPatch(d, p, ix, top, next).node;
    var rest := WeightCount(Bad(a), d, p, ix, top, next, depth);
    CountDeeper(Bad(a), rest, depth + 1, depth + 2);
    var rest0 := WeightCount(Bad(a), d, p, ix, top, next, 0);
    CountDeeper(Bad(a), rest0, 1, 2);
    RootViolations(a, n);
    RootViolations(a, p);
  }

  lemma AbsorbSiblingIds(d: Degree, p: Node, ix: nat, top: bool, next: nat)
    requires CanFixDegree(d, p, ix)
    ensures var s, newl := AbsorbSiblingPatch(d, p, ix, top, next), Joined(p, LeftOf(ix), next, p.kids[ix].searchKey);
            && s.retired == [p.id, p.kids[ix].id, p.kids[Sibling(ix)].id]
            && newl.id == next
            && if top && |p.kids| == 2 then s.next == next + 1 && s.node == newl
               else s.next == next + 2 && s.node.id == next + 1
  {
  }

  lemma AbsorbSiblingBalanced(d: Degree, p: Node, ix: nat, top: bool, next: nat, depth: nat, id: nat)
    requires CanFixDegree(d, p, ix)
    ensures Balanced(p, AbsorbSiblingPatch(d, p, ix, top, next), next, id, depth)
  {
    hide Count, CountF, Joined, AbsorbSiblingPatch, Is, Fresh;
    FreshSum(next, id);
    var q, i, sk := Address(id), LeftOf(ix), p.kids[ix].searchKey;
    DegreeBefore(q, d, p, ix, next, sk, depth);
    AbsorbSiblingCount(q, d, p, ix, top, next, depth);
    AbsorbSiblingIds(d, p, ix, top, next);
    NoCount(q, p.kids[..i], depth + 1);
    NoCount(q, p.kids[i + 2..], depth + 1);
    CountDeeper(q, Joined(p, i, next, sk).Kids(), depth + 1, depth + 2);
    ThreeTimes(p.id, p.kids[ix].id, p.kids[Sibling(ix)].id, id);
  }

  lemma FreshSum(n: nat, id: nat)
    ensures Fresh(n, n + 1, id) == Is(n, id)
    ensures Fresh(n, n + 2, id) == Is(n, id) + Is(n + 1, id)
    ensures Fresh(n, n + 3, id) == Is(n, id) + Is(n + 1, id) + Is(n + 2, id)
  {
  }

  lemma ThreeTimes(x: nat, y: nat, z: nat, id: nat)
    ensures multiset([x, y, z])[id] == Is(x, id) + Is(y, id) + Is(z, id)
  {
    assert multiset([x, y, z]) == multiset{x, y, z};
  }

  lemma NoCount(q: Stat, x: seq<Node>, depth: nat)
    ensures |x| == 0 ==> CountF(q, x, depth) == 0
  {
  }

  lemma DistributeIds(d: Degree, p: Node, ix: nat, next: nat)
    requires CanFixDegree(d, p, ix)
    requires p.kids[ix].Size() + p.kids[Sibling(ix)].Size() >= 2 * MinDegree(d)
    ensures var i, n := LeftOf(ix), DistributePatch(d, p, ix, next).node;
            && n.id == next && n.kids[i].id == next + 1 && n.kids[i + 1].id == next + 2
            && n.weight && n.Size() == p.Size()
            && n.kids[i].weight && MinDegree(d) <= n.kids[i].Size()
            && n.kids[i + 1].weight && MinDegree(d) <= n.kids[i + 1].Size()
  {
    hide Joined, CutLeft, CutRight, CutKey, CanCut;
    HalvesLarge(d, p, ix, next, p.searchKey);
    var big := Joined(p, LeftOf(ix), next, p.searchKey);
    CutShares(big, big.Size() / 2, next + 1, next + 2);
  }

  lemma DistributeBalanced(d: Degree, p: Node, ix: nat, next: nat, depth: nat, id: nat)
    requires CanFixDegree(d, p, ix)
    requires p.kids[ix].Size() + p.kids[Sibling(ix)].Size() >= 2 * MinDegree(d)
    ensures Balanced(p, DistributePatch(d, p, ix, next), next, id, depth)
  {
    DegreeBefore(Address(id), d, p, ix, next, p.searchKey, depth);
    DistributeCount(Address(id), d, p, ix, next, depth);
    DistributeIds(d, p, ix, next);
    FreshSum(next, id);
    ThreeTimes(p.id, p.kids[ix].id, p.kids[Sibling(ix)].id, id);
    hide Count, CountF, Joined, CutLeft, CutRight, CutKey, CanCut, Is, Fresh;
  }

  lemma DegreeBalanced(d: Degree, p: Node, ix: nat, top: bool, next: nat, depth: nat, id: nat)
    requires CanFixDegree(d, p, ix)
    ensures Balanced(p, DegreePatch(d, p, ix, top, next), next, id, depth)
  {
    hide Balanced;
    if p.kids[ix].Size() + p.kids[Sibling(ix)].Size() < 2 * MinDegree(d) {
      AbsorbSiblingBalanced(d, p, ix, top, next, depth, id);
    } else {
      DistributeBalanced(d, p, ix, next, depth, id);
    }
  }

  /** What each statistic loses or gains, given the shares of the nodes exchanged. */
  lemma AbsorbSiblingStat(q: Stat, d: Degree, p: Node, ix: nat, top: bool, next: nat, depth: nat)
    requires CanFixDegree(d, p, ix) && (top ==> depth == 0)
    requires p.kids[ix].Size() + p.kids[Sibling(ix)].Size() < 2 * MinDegree(d)
    ensures var a, n := MinDegree(d), AbsorbSiblingPatch(d, p, ix, top, next).node;
            && (q == Zeros || q == Dist ==> Count(q, n, depth) <= Count(q, p, depth))
            && (q == Nodes ==> Count(q, n, depth) < Count(q, p, depth))
            && (q == Bad(a) ==> Count(q, n, depth) + 1 <= Count(q, p, depth) + Own(q, n, depth)
                                && (top ==> Violations(a, n) + 1 <= Violations(a, p)))
  {
    hide Count, CountF, Joined, Violations;
    var a, n := MinDegree(d), AbsorbSiblingPatch(d, p, ix, top, next).node;
    var i, sk := LeftOf(ix), p.kids[ix].searchKey;
    DegreeBefore(q, d, p, ix, next, sk, depth);
    AbsorbSiblingCount(q, d, p, ix, top, next, depth);
    JoinedShares(p, i, next, sk);
    NoCount(q, p.kids[..i], depth + 1);
    NoCount(q, p.kids[i + 2..], depth + 1);
    CountDeeper(q, Joined(p, i, next, sk).Kids(), depth + 1, depth + 2);
    RootViolations(a, n);
    RootViolations(a, p);
  }

  lemma DistributeStat(q: Stat, d: Degree, p: Node, ix: nat, next: nat, depth: nat)
    requires CanFixDegree(d, p, ix)
    requires p.kids[ix].Size() + p.kids[Sibling(ix)].Size() >= 2 * MinDegree(d)
    ensures var a, n := MinDegree(d), DistributePatch(d, p, ix, next).node;
            && (q == Zeros || q == Dist || q == Nodes ==> Count(q, n, depth) == Count(q, p, depth))
            && (q == Small(a) ==> Count(q, n, depth) < Count(q, p, depth))
            && (q == Bad(a) ==> Count(q, n, depth) + 1 <= Count(q, p, depth) + Own(q, n, depth)
                                && (depth == 0 ==> Violations(a, n) + 1 <= Violations(a, p)))
  {
    DegreeBefore(q, d, p, ix, next, p.searchKey, depth);
    DistributeCount(q, d, p, ix, next, depth);
    DistributeIds(d, p, ix, next);
    hide Count, CountF, Joined, CutLeft, CutRight, CutKey, CanCut, Violations;
    var a, n := MinDegree(d), DistributePatch(d, p, ix, next).node;
    RootViolations(a, n);
    RootViolations(a, p);
  }

  lemma DegreeProgress(d: Degree, p: Node, ix: nat, top: bool, next: nat, depth: nat)
    requires CanFixDegree(d, p, ix) && (top ==> depth == 0)
    ensures Lower(MinDegree(d), DegreePatch(d, p, ix, top, next).node, p, depth)
  {
    hide Count, CountF, AbsorbSiblingPatch, DistributePatch;
    var a := MinDegree(d);
    if p.kids[ix].Size() + p.kids[Sibling(ix)].Size() < 2 * a {
      AbsorbSiblingStat(Zeros, d, p, ix, top, next, depth);
      AbsorbSiblingStat(Dist, d, p, ix, top, next, depth);
      AbsorbSiblingStat(Nodes, d, p, ix, top, next, depth);
    } else {
      DistributeStat(Zeros, d, p, ix, next, depth);
      DistributeStat(Dist, d, p, ix, next, depth);
      DistributeStat(Nodes, d, p, ix, next, depth);
      DistributeStat(Small(a), d, p, ix, next, depth);
    }
  }

  lemma DegreeBad(d: Degree, p: Node, ix: nat, top: bool, next: nat, depth: nat)
    requires CanFixDegree(d, p, ix) && (top <==> depth == 0)
    ensures var a, n := MinDegree(d), DegreePatch(d, p, ix, top, next).node;
            && Count(Bad(a), n, depth) + 1 <= Count(Bad(a), p, depth) + Own(Bad(a), n, depth)
            && (top ==> Violations(a, n) + 1 <= Violations(a, p))
  {
    hide Count, CountF, AbsorbSiblingPatch, DistributePatch, Violations;
    var a := MinDegree(d);
    if p.kids[ix].Size() + p.kids[Sibling(ix)].Size() < 2 * a {
      AbsorbSiblingStat(Bad(a), d, p, ix, top, next, depth);
    } else {
      DistributeStat(Bad(a), d, p, ix, next, depth);
    }
  }
}
