/** The replacements: what each update and each rebalancing step puts in place
    of the node it removes, as values. */
module AbPatches {
  import opened AbNodes

  /** New subtree, addresses handed to the reclaimer, next unused address. */
  datatype Patch = Patch(node: Node, retired: seq<nat>, next: nat)

  ghost predicate IsLeaf(l: Node) {
    l.Leaf? && |l.keys| == |l.vals|
  }

  ghost predicate IsInternal(p: Node) {
    p.Internal? && |p.kids| == |p.keys| + 1
  }

  // -------------------------------------- halving an array that is too large

  /** Room for a cut into m entries and the rest, with a key on either side. */
  ghost predicate CanCut(t: Node, m: nat) {
    if t.Leaf? then IsLeaf(t) && 1 <= m < |t.keys|
    else IsInternal(t) && 2 <= m && m + 2 <= |t.kids|
  }

  function CutKey(t: Node, m: nat): int
    requires CanCut(t, m)
  {
    if t.Leaf? then t.keys[m] else t.keys[m - 1]
  }

  function CutLeft(t: Node, m: nat, id: nat): Node
    requires CanCut(t, m)
  {
    if t.Leaf? then Leaf(id, true, t.keys[0], t.keys[..m], t.vals[..m])
    else Internal(id, true, t.keys[0], t.keys[..m - 1], t.kids[..m])
  }

  function CutRight(t: Node, m: nat, id: nat): Node
    requires CanCut(t, m)
  {
    if t.Leaf? then Leaf(id, true, t.keys[m], t.keys[m..], t.vals[m..])
    else Internal(id, true, t.keys[m], t.keys[m..], t.kids[m..])
  }

  /** A parent over the two halves: weight 0 unless it becomes the root. */
  function Halved(t: Node, m: nat, top: bool, next: nat): Node
    requires CanCut(t, m)
  {
    Internal(next + 2, top, CutKey(t, m), [CutKey(t, m)], [CutLeft(t, m, next), CutRight(t, m, next + 1)])
  }

  // ---------------------------------------------------------------- updates

  predicate HasKey(l: Node, k: int)
    requires l.Leaf?
  {
    var i := KeyIndex(l.keys, k);
    i < |l.keys| && l.keys[i] == k
  }

  function InsertAt(s: seq<int>, i: nat, x: int): seq<int>
    requires i <= |s|
  {
    s[..i] + [x] + s[i..]
  }

  function RemoveAt(s: seq<int>, i: nat): seq<int>
    requires i < |s|
  {
    s[..i] + s[i + 1..]
  }

  function Inserted(l: Node, k: int, v: int, id: nat): Node
    requires IsLeaf(l)
  {
    var i := KeyIndex(l.keys, k);
    Leaf(id, l.weight, l.searchKey, InsertAt(l.keys, i, k), InsertAt(l.vals, i, v))
  }

  /** Replace, insert or overflow; `top` says that the leaf hangs off the entry. */
  function PutPatch(d: Degree, l: Node, k: int, v: int, top: bool, next: nat): Patch
    requires IsLeaf(l) && |l.keys| <= d
  {
    if HasKey(l, k) then
      Patch(Leaf(next, true, l.searchKey, l.keys, l.vals[KeyIndex(l.keys, k) := v]), [l.id], next + 1)
    else if |l.keys| < d then
      Patch(Inserted(l, k, v, next), [l.id], next + 1)
    else
      Patch(Halved(Inserted(l, k, v, next), (d + 1) / 2, top, next), [l.id], next + 3)
  }

  function DelPatch(l: Node, k: int, next: nat): Patch
    requires IsLeaf(l) && HasKey(l, k)
  {
    var i := KeyIndex(l.keys, k);
    Patch(Leaf(next, true, l.keys[0], RemoveAt(l.keys, i), RemoveAt(l.vals, i)), [l.id], next + 1)
  }

  // ------------------------------------------------------------ weight repair

  /** p with its weight-0 child ix to be repaired. */
  ghost predicate CanFixWeight(d: Degree, p: Node, ix: nat) {
    && IsInternal(p) && |p.kids| <= d && p.weight && ix < |p.kids|
    && IsInternal(p.kids[ix]) && !p.kids[ix].weight && |p.kids[ix].kids| == 2
  }

  /** p with the pointer to child ix replaced by that child's contents. */
  function Merged(p: Node, ix: nat, id: nat): Node
    requires IsInternal(p) && ix < |p.kids| && IsInternal(p.kids[ix]) && |p.kids[ix].kids| == 2
  {
    var l := p.kids[ix];
    var ks := p.keys[..ix] + l.keys + p.keys[ix..];
    Internal(id, true, ks[0], ks, p.kids[..ix] + l.kids + p.kids[ix + 1..])
  }

  /** Absorb if the merged node fits, else Split. */
  function WeightPatch(d: Degree, p: Node, ix: nat, top: bool, next: nat): Patch
    requires CanFixWeight(d, p, ix)
  {
    var retired := [p.id, p.kids[ix].id];
    if |p.kids| + 1 <= d then Patch(Merged(p, ix, next), retired, next + 1)
    else Patch(Halved(Merged(p, ix, next), (|p.kids| + 1) / 2, top, next), retired, next + 3)
  }

  // ------------------------------------------------------------ degree repair

  /** The sibling is the left neighbour, except for child 0. */
  function Sibling(ix: nat): nat {
    if ix > 0 then ix - 1 else 1
  }

  function LeftOf(ix: nat): nat {
    if ix > 0 then ix - 1 else 0
  }

  ghost predicate CanFixDegree(d: Degree, p: Node, ix: nat) {
    && IsInternal(p) && |p.kids| <= d && p.weight && ix < |p.kids| && |p.kids| >= 2
    && var l, s := p.kids[ix], p.kids[Sibling(ix)];
    && l.weight && s.weight && l.Size() < MinDegree(d) && s.Size() <= d
    && ((IsLeaf(l) && IsLeaf(s)) || (IsInternal(l) && IsInternal(s)))
  }

  /** Children i and i+1 of p as one node; internal ones take the key between them. */
  function Joined(p: Node, i: nat, id: nat, searchKey: int): Node
    requires IsInternal(p) && i < |p.keys|
  {
    var left, right := p.kids[i], p.kids[i + 1];
    match (left, right)
    case (Leaf(_, _, _, lk, lv), Leaf(_, _, _, rk, rv)) =>
      Leaf(id, true, searchKey, lk + rk, lv + rv)
    case (_, _) =>
      Internal(id, true, searchKey, left.keys + [p.keys[i]] + right.keys,
               (if left.Internal? then left.kids else []) + (if right.Internal? then right.kids else []))
  }

  function AbsorbSiblingPatch(d: Degree, p: Node, ix: nat, top: bool, next: nat): Patch
    requires CanFixDegree(d, p, ix)
  {
    var i := LeftOf(ix);
    var newl := Joined(p, i, next, p.kids[ix].searchKey);
    var retired := [p.id, p.kids[ix].id, p.kids[Sibling(ix)].id];
    if top && |p.kids| == 2 then Patch(newl, retired, next + 1)
    else Patch(Internal(next + 1, true, p.searchKey, p.keys[..i] + p.keys[i + 1..],
                        p.kids[..i] + [newl] + p.kids[i + 2..]),
               retired, next + 2)
  }

  function DistributePatch(d: Degree, p: Node, ix: nat, next: nat): Patch
    requires CanFixDegree(d, p, ix)
    requires p.kids[ix].Size() + p.kids[Sibling(ix)].Size() >= 2 * MinDegree(d)
  {
    var i := LeftOf(ix);
    var big := Joined(p, i, next, p.searchKey);
    var m := big.Size() / 2;
    Patch(Internal(next, true, p.searchKey, p.keys[i := CutKey(big, m)],
                   p.kids[i := CutLeft(big, m, next + 1)][i + 1 := CutRight(big, m, next + 2)]),
          [p.id, p.kids[ix].id, p.kids[Sibling(ix)].id], next + 3)
  }

  function DegreePatch(d: Degree, p: Node, ix: nat, top: bool, next: nat): Patch
    requires CanFixDegree(d, p, ix)
  {
    if p.kids[ix].Size() + p.kids[Sibling(ix)].Size() < 2 * MinDegree(d)
    then AbsorbSiblingPatch(d, p, ix, top, next)
    else DistributePatch(d, p, ix, next)
  }
}
