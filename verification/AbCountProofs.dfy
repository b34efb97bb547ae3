/** What every replacement removes and adds: addresses exactly, and the tally
    of violations that decides termination and strictness. */
module AbCountProofs {
  import opened AbNodes
  import opened AbPatches

  lemma CountThree(q: Stat, x: seq<Node>, y: seq<Node>, z: seq<Node>, depth: nat)
    ensures CountF(q, x + y + z, depth) == CountF(q, x, depth) + CountF(q, y, depth) + CountF(q, z, depth)
  {
    CountAppend(q, x + y, z, depth);
    CountAppend(q, x, y, depth);
  }

  lemma CountPair(q: Stat, x: Node, y: Node, depth: nat)
    ensures CountF(q, [x], depth) == Count(q, x, depth)
    ensures CountF(q, [x, y], depth) == Count(q, x, depth) + Count(q, y, depth)
  {
    assert [x, y][1..] == [y] && [x][1..] == [] && [y][1..] == [];
    assert CountF(q, [y], depth) == Count(q, y, depth);
  }

  lemma KidsCount(q: Stat, t: Node, depth: nat)
    ensures Count(q, t, depth) == Own(q, t, depth) + CountF(q, t.Kids(), depth + t.W())
  {
  }

  /** More weight above changes the distances only, and only upwards. */
  lemma {:induction false} CountDeeper(q: Stat, kids: seq<Node>, x: nat, y: nat)
    requires x <= y
    ensures CountF(q, kids, x) <= CountF(q, kids, y)
    ensures q != Dist ==> CountF(q, kids, x) == CountF(q, kids, y)
    decreases kids
  {
    if kids != [] {
      var t := kids[0];
      CountDeeper(q, kids[1..], x, y);
      if t.Internal? {
        CountDeeper(q, t.kids, x + t.W(), y + t.W());
      }
    }
  }

  /** The subtrees below x and y taken together are those below t. */
  predicate SharesKids(t: Node, x: Node, y: Node) {
    t.Kids() == x.Kids() + y.Kids()
  }

  lemma SharedCount(q: Stat, t: Node, x: Node, y: Node, depth: nat)
    requires SharesKids(t, x, y) && x.weight && y.weight
    ensures Count(q, x, depth) + Count(q, y, depth) ==
            Own(q, x, depth) + Own(q, y, depth) + CountF(q, t.Kids(), depth + 1)
  {
    hide Count, CountF, Own;
    CountAppend(q, x.Kids(), y.Kids(), depth + 1);
    KidsCount(q, x, depth);
    KidsCount(q, y, depth);
  }

  lemma CutShares(t: Node, m: nat, x: nat, y: nat)
    requires CanCut(t, m)
    ensures SharesKids(t, CutLeft(t, m, x), CutRight(t, m, y))
    ensures CutLeft(t, m, x).id == x && CutLeft(t, m, x).weight && CutLeft(t, m, x).Size() == m
    ensures CutRight(t, m, y).id == y && CutRight(t, m, y).weight && CutRight(t, m, y).Size() == t.Size() - m
  {
    if t.Internal? {
      assert t.kids == t.kids[..m] + t.kids[m..];
    }
  }

  lemma CutCount(q: Stat, t: Node, m: nat, x: nat, y: nat, depth: nat)
    requires CanCut(t, m)
    ensures var l, r := CutLeft(t, m, x), CutRight(t, m, y);
            Count(q, l, depth) + Count(q, r, depth) ==
            Own(q, l, depth) + Own(q, r, depth) + CountF(q, t.Kids(), depth + 1)
  {
    hide Count, CountF, Own;
    CutShares(t, m, x, y);
    SharedCount(q, t, CutLeft(t, m, x), CutRight(t, m, y), depth);
  }

  lemma HalvedCount(q: Stat, t: Node, m: nat, top: bool, next: nat, depth: nat)
    requires CanCut(t, m)
    ensures var n, w := Halved(t, m, top, next), if top then 1 else 0;
            CountF(q, n.kids, depth + w) ==
            Own(q, n.kids[0], depth + w) + Own(q, n.kids[1], depth + w) + CountF(q, t.Kids(), depth + w + 1)
  {
    hide Count, CountF, Own, CutLeft, CutRight;
    var n, w := Halved(t, m, top, next), if top then 1 else 0;
    CutCount(q, t, m, next, next + 1, depth + w);
    CountPair(q, n.kids[0], n.kids[1], depth + w);
  }

  // ------------------------------------------------------- what a step exchanges

  lemma MergedCount(q: Stat, p: Node, ix: nat, n: nat, depth: nat)
    requires IsInternal(p) && ix < |p.kids| && IsInternal(p.kids[ix]) && |p.kids[ix].kids| == 2
    requires !p.kids[ix].weight
    ensures CountF(q, p.kids, depth) == Own(q, p.kids[ix], depth) + CountF(q, Merged(p, ix, n).kids, depth)
  {
    hide Count, CountF, Own;
    var l, x, z := p.kids[ix], p.kids[..ix], p.kids[ix + 1..];
    assert p.kids == x + [l] + z;
    CountThree(q, x, [l], z, depth);
    CountThree(q, x, l.kids, z, depth);
    CountPair(q, l, l, depth);
    KidsCount(q, l, depth);
  }

  /** Shares in p and in its replacement, over the same subtrees `rest`. */
  lemma WeightCount(q: Stat, d: Degree, p: Node, ix: nat, top: bool, next: nat, depth: nat) returns (rest: seq<Node>)
    requires CanFixWeight(d, p, ix)
    ensures Count(q, p, depth) == Own(q, p, depth) + Own(q, p.kids[ix], depth + 1) + CountF(q, rest, depth + 1)
    ensures var n := WeightPatch(d, p, ix, top, next).node;
            if |p.kids| + 1 <= d then Count(q, n, depth) == Own(q, n, depth) + CountF(q, rest, depth + 1)
            else Count(q, n, depth) == Own(q, n, depth) + Own(q, n.kids[0], depth + n.W())
                                       + Own(q, n.kids[1], depth + n.W()) + CountF(q, rest, depth + n.W() + 1)
  {
    hide Count, CountF, Own;
    var n := WeightPatch(d, p, ix, top, next).node;
    rest := Merged(p, ix, next).kids;
    KidsCount(q, p, depth);
    KidsCount(q, n, depth);
    MergedCount(q, p, ix, next, depth + 1);
    if |p.kids| + 1 > d {
      HalvedCount(q, Merged(p, ix, next), (|p.kids| + 1) / 2, top, next, depth);
    }
  }

  lemma JoinedShares(p: Node, i: nat, n: nat, sk: int)
    requires IsInternal(p) && i < |p.keys| && p.kids[i].Leaf? == p.kids[i + 1].Leaf?
    ensures SharesKids(Joined(p, i, n, sk), p.kids[i], p.kids[i + 1])
    ensures Joined(p, i, n, sk).id == n && Joined(p, i, n, sk).weight
    ensures Joined(p, i, n, sk).Size() == p.kids[i].Size() + p.kids[i + 1].Size()
  {
  }

  /** The joined siblings can be halved, and each half has at least a entries. */
  lemma HalvesLarge(d: Degree, p: Node, ix: nat, n: nat, sk: int)
    requires CanFixDegree(d, p, ix)
    requires p.kids[ix].Size() + p.kids[Sibling(ix)].Size() >= 2 * MinDegree(d)
    ensures var big, a := Joined(p, LeftOf(ix), n, sk), MinDegree(d);
            var m := big.Size() / 2;
            big.Size() == p.kids[ix].Size() + p.kids[Sibling(ix)].Size() && CanCut(big, m) && a <= m && a + m <= big.Size()
  {
  }

  /** p's count, with children i and i+1 opened up. */
  lemma AroundCount(q: Stat, p: Node, i: nat, big: Node, depth: nat)
    requires IsInternal(p) && p.weight && i < |p.keys| && SharesKids(big, p.kids[i], p.kids[i + 1])
    requires p.kids[i].weight && p.kids[i + 1].weight
    ensures Count(q, p, depth) ==
            Own(q, p, depth) + Own(q, p.kids[i], depth + 1) + Own(q, p.kids[i + 1], depth + 1)
            + CountF(q, p.kids[..i], depth + 1) + CountF(q, p.kids[i + 2..], depth + 1) + CountF(q, big.Kids(), depth + 2)
  {
    hide Count, CountF, Own;
    var x, y := p.kids[i], p.kids[i + 1];
    assert p.kids == p.kids[..i] + [x, y] + p.kids[i + 2..];
    CountThree(q, p.kids[..i], [x, y], p.kids[i + 2..], depth + 1);
    CountPair(q, x, y, depth + 1);
    SharedCount(q, big, x, y, depth + 1);
    KidsCount(q, p, depth);
  }

  /** One node in place of children i and i+1. */
  lemma MergeCount(q: Stat, x: seq<Node>, big: Node, z: seq<Node>, n: Node, depth: nat)
    requires n.Internal? && n.weight && n.kids == x + [big] + z && big.weight
    ensures Count(q, n, depth) ==
            Own(q, n, depth) + Own(q, big, depth + 1)
            + CountF(q, x, depth + 1) + CountF(q, z, depth + 1) + CountF(q, big.Kids(), depth + 2)
  {
    hide Count, CountF, Own;
    CountThree(q, x, [big], z, depth + 1);
    CountPair(q, big, big, depth + 1);
    KidsCount(q, n, depth);
    KidsCount(q, big, depth + 1);
  }

  /** Two nodes in place of children i and i+1. */
  lemma ReseatCount(q: Stat, x: seq<Node>, l: Node, r: Node, z: seq<Node>, big: Node, n: Node, depth: nat)
    requires n.Internal? && n.weight && n.kids == x + [l, r] + z
    requires SharesKids(big, l, r) && l.weight && r.weight
    ensures Count(q, n, depth) ==
            Own(q, n, depth) + Own(q, l, depth + 1) + Own(q, r, depth + 1)
            + CountF(q, x, depth + 1) + CountF(q, z, depth + 1) + CountF(q, big.Kids(), depth + 2)
  {
    hide Count, CountF, Own;
    CountThree(q, x, [l, r], z, depth + 1);
    CountPair(q, l, r, depth + 1);
    SharedCount(q, big, l, r, depth + 1);
    KidsCount(q, n, depth);
  }

  lemma DegreeBefore(q: Stat, d: Degree, p: Node, ix: nat, n: nat, sk: int, depth: nat)
    requires CanFixDegree(d, p, ix)
    ensures var i := LeftOf(ix);
            Count(q, p, depth) ==
            Own(q, p, depth) + Own(q, p.kids[ix], depth + 1) + Own(q, p.kids[Sibling(ix)], depth + 1)
            + CountF(q, p.kids[..i], depth + 1) + CountF(q, p.kids[i + 2..], depth + 1)
            + CountF(q, Joined(p, i, n, sk).Kids(), depth + 2)
  {
    hide Count, CountF, Own, Joined;
    JoinedShares(p, LeftOf(ix), n, sk);
    AroundCount(q, p, LeftOf(ix), Joined(p, LeftOf(ix), n, sk), depth);
  }

  lemma AbsorbSiblingCount(q: Stat, d: Degree, p: Node, ix: nat, top: bool, next: nat, depth: nat)
    requires CanFixDegree(d, p, ix)
    ensures var i, n := LeftOf(ix), AbsorbSiblingPatch(d, p, ix, top, next).node;
            var newl := Joined(p, i, next, p.kids[ix].searchKey);
            if top && |p.kids| == 2 then
              n == newl && Count(q, n, depth) == Own(q, n, depth) + CountF(q, newl.Kids(), depth + 1)
            else
              Count(q, n, depth) ==
              Own(q, n, depth) + Own(q, newl, depth + 1)
              + CountF(q, p.kids[..i], depth + 1) + CountF(q, p.kids[i + 2..], depth + 1) + CountF(q, newl.Kids(), depth + 2)
  {
    hide Count, CountF, Own, Joined;
    var i, n := LeftOf(ix), AbsorbSiblingPatch(d, p, ix, top, next).node;
    var newl := Joined(p, i, next, p.kids[ix].searchKey);
    JoinedShares(p, i, next, p.kids[ix].searchKey);
    if top && |p.kids| == 2 {
      KidsCount(q, n, depth);
    } else {
      MergeCount(q, p.kids[..i], newl, p.kids[i + 2..], n, depth);
    }
  }

  lemma DistributeCount(q: Stat, d: Degree, p: Node, ix: nat, next: nat, depth: nat)
    requires CanFixDegree(d, p, ix)
    requires p.kids[ix].Size() + p.kids[Sibling(ix)].Size() >= 2 * MinDegree(d)
    ensures var i, n := LeftOf(ix), DistributePatch(d, p, ix, next).node;
            Count(q, n, depth) ==
            Own(q, n, depth) + Own(q, n.kids[i], depth + 1) + Own(q, n.kids[i + 1], depth + 1)
            + CountF(q, p.kids[..i], depth + 1) + CountF(q, p.kids[i + 2..], depth + 1)
            + CountF(q, Joined(p, i, next, p.searchKey).Kids(), depth + 2)
  {
    hide Count, CountF, Own, Joined, CutLeft, CutRight, CutKey, CanCut;
    var i, n := LeftOf(ix), DistributePatch(d, p, ix, next).node;
    var big := Joined(p, i, next, p.searchKey);
    HalvesLarge(d, p, ix, next, p.searchKey);
    CutShares(big, big.Size() / 2, next + 1, next + 2);
    var l, r := n.kids[i], n.kids[i + 1];
    assert n.kids == p.kids[..i] + [l, r] + p.kids[i + 2..];
    ReseatCount(q, p.kids[..i], l, r, p.kids[i + 2..], big, n, depth);
  }
}
