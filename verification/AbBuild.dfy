/** The array code that fills freshly allocated nodes, with the indices of the
    original. Each method is shown to produce the corresponding replacement, and
    never to write outside the DEGREE slots of a node. */
module AbBuild {
  import opened AbNodes
  import opened AbPatches

  /** A node under construction. Its pointers are values (leaf) or nodes (internal). */
  class Record<P> {
    const id: nat
    const keys: array<int>
    const ptrs: array<P>
    var weight: bool
    var size: nat
    var searchKey: int

    constructor (d: Degree, id: nat, some: P)
      ensures this.id == id && fresh(keys) && fresh(ptrs) && keys as object != ptrs
      ensures keys.Length == d && ptrs.Length == d
    {
      this.id := id;
      keys := new int[d];
      ptrs := new P[d](_ => some);
      weight, size, searchKey := true, 0, 0;
    }
  }

  function SealLeaf(r: Record<int>): Node
    requires r.size <= r.keys.Length && r.size <= r.ptrs.Length
    reads r, r.keys, r.ptrs
  {
    Leaf(r.id, r.weight, r.searchKey, r.keys[..r.size], r.ptrs[..r.size])
  }

  function SealInternal(r: Record<Node>): Node
    requires 1 <= r.size && r.size - 1 <= r.keys.Length && r.size <= r.ptrs.Length
    reads r, r.keys, r.ptrs
  {
    Internal(r.id, r.weight, r.searchKey, r.keys[..r.size - 1], r.ptrs[..r.size])
  }

  method ArrayCopy<T>(src: seq<T>, srcStart: nat, dest: array<T>, destStart: nat, len: nat)
    requires srcStart + len <= |src| && destStart + len <= dest.Length
    modifies dest
    ensures forall j :: destStart <= j < destStart + len ==> dest[j] == src[srcStart + j - destStart]
    ensures forall j :: 0 <= j < dest.Length && !(destStart <= j < destStart + len) ==> dest[j] == old(dest[j])
  {
    for i := 0 to len
      invariant forall j :: destStart <= j < destStart + i ==> dest[j] == src[srcStart + j - destStart]
      invariant forall j :: 0 <= j < dest.Length && !(destStart <= j < destStart + i) ==> dest[j] == old(dest[j])
    {
      dest[destStart + i] := src[srcStart + i];
    }
  }

  /** Three copies: src with `mid` in place of the entries from cut to skip. */
  method FillMerged<T>(src: seq<T>, cut: nat, mid: seq<T>, skip: nat, dest: array<T>)
    requires cut <= skip <= |src| && cut + |mid| + |src| - skip <= dest.Length
    modifies dest
    ensures dest[..cut + |mid| + |src| - skip] == src[..cut] + mid + src[skip..]
  {
    ArrayCopy(src, 0, dest, 0, cut);
    ArrayCopy(mid, 0, dest, cut, |mid|);
    ArrayCopy(src, skip, dest, cut + |mid|, |src| - skip);
  }

  /** Two copies around a gap, then the new entry. */
  method FillInserted<T>(src: seq<T>, at: nat, x: T, dest: array<T>)
    requires at <= |src| < dest.Length
    modifies dest
    ensures dest[..|src| + 1] == src[..at] + [x] + src[at..]
  {
    ArrayCopy(src, 0, dest, 0, at);
    ArrayCopy(src, at, dest, at + 1, |src| - at);
    dest[at] := x;
  }

  /** Two copies, leaving one entry out. */
  method FillWithout<T>(src: seq<T>, at: nat, dest: array<T>)
    requires at < |src| <= dest.Length + 1
    modifies dest
    ensures dest[..|src| - 1] == src[..at] + src[at + 1..]
  {
    ArrayCopy(src, 0, dest, 0, at);
    ArrayCopy(src, at + 1, dest, at, |src| - (at + 1));
  }

  /** One copy to the front. */
  method FillPart<T>(src: seq<T>, start: nat, len: nat, dest: array<T>)
    requires start + len <= |src| && len <= dest.Length
    modifies dest
    ensures dest[..len] == src[start..start + len]
  {
    ArrayCopy(src, start, dest, 0, len);
  }

  /** Appends all of src to the first k entries of dest. */
  method Push<T>(src: seq<T>, dest: array<T>, k: nat) returns (k': nat)
    requires k + |src| <= dest.Length
    modifies dest
    ensures k' == k + |src|
    ensures dest[..k'] == old(dest[..k]) + src
  {
    k' := k;
    for i := 0 to |src|
      invariant k' == k + i
      invariant dest[..k'] == old(dest[..k]) + src[..i]
    {
      dest[k'] := src[i];
      k' := k' + 1;
      assert dest[..k'] == dest[..k' - 1] + [src[i]] && src[..i + 1] == src[..i] + [src[i]];
    }
  }

  /** Fills the front of dest with the entries of src from k on. */
  method Pull<T>(src: seq<T>, k: nat, dest: array<T>, len: nat) returns (k': nat)
    requires k + len <= |src| && len <= dest.Length
    modifies dest
    ensures k' == k + len
    ensures dest[..len] == src[k..k + len]
  {
    k' := k;
    for i := 0 to len
      invariant k' == k + i
      invariant dest[..i] == src[k..k + i]
    {
      dest[i] := src[k'];
      k' := k' + 1;
    }
  }

  /** The contents of two nodes, with the key between them if there is one. */
  method FillJoined<T>(left: seq<T>, mid: seq<T>, right: seq<T>, dest: array<T>)
    requires |left| + |mid| + |right| <= dest.Length
    modifies dest
    ensures dest[..|left| + |mid| + |right|] == left + mid + right
  {
    var k := Push(left, dest, 0);
    k := Push(mid, dest, k);
    k := Push(right, dest, k);
  }

  /** Pointers of p without the one at ixToS, and with newl instead of the one at ixToL. */
  method FillShrunk<T>(src: seq<T>, ixToL: nat, ixToS: nat, newl: T, dest: array<T>)
    requires 2 <= |src| <= dest.Length + 1 && ixToL < |src| && ixToS == Sibling(ixToL)
    modifies dest
    ensures dest[..|src| - 1] == src[..LeftOf(ixToL)] + [newl] + src[LeftOf(ixToL) + 2..]
  {
    ArrayCopy(src, 0, dest, 0, ixToS);
    ArrayCopy(src, ixToL + 1, dest, ixToL, |src| - (ixToL + 1));
    dest[ixToL - if ixToL > ixToS then 1 else 0] := newl;
  }

  // ---------------------------------------------------------------- updates

  method BuildReplace(d: Degree, l: Node, keyIndex: nat, value: int, next: nat) returns (n: Node)
    requires IsLeaf(l) && |l.keys| <= d && keyIndex < |l.keys|
    ensures n == Leaf(next, true, l.searchKey, l.keys, l.vals[keyIndex := value])
  {
    var r := new Record<int>(d, next, 0);
    FillPart(l.keys, 0, |l.keys|, r.keys);
    FillPart(l.vals, 0, l.Size(), r.ptrs);
    r.ptrs[keyIndex] := value;
    r.searchKey, r.size, r.weight := l.searchKey, l.Size(), true;
    n := SealLeaf(r);
  }

  method BuildInsert(d: Degree, l: Node, key: int, value: int, next: nat) returns (n: Node)
    requires IsLeaf(l) && |l.keys| < d
    ensures n == Inserted(l, key, value, next)
  {
    var keyIndex := KeyIndex(l.keys, key);
    var r := new Record<int>(d, next, 0);
    FillInserted(l.keys, keyIndex, key, r.keys);
    FillInserted(l.vals, keyIndex, value, r.ptrs);
    r.searchKey, r.size, r.weight := l.searchKey, l.Size() + 1, l.weight;
    n := SealLeaf(r);
  }

  method BuildErase(d: Degree, l: Node, key: int, next: nat) returns (n: Node)
    requires IsLeaf(l) && |l.keys| <= d && HasKey(l, key)
    ensures n == DelPatch(l, key, next).node
  {
    var keyIndex := KeyIndex(l.keys, key);
    var r := new Record<int>(d, next, 0);
    FillWithout(l.keys, keyIndex, r.keys);
    FillWithout(l.vals, keyIndex, r.ptrs);
    r.searchKey, r.size, r.weight := l.keys[0], l.Size() - 1, true;
    n := SealLeaf(r);
  }

  /** A leaf from `size` entries of two larger arrays. */
  method BuildLeafPart(d: Degree, keys: seq<int>, ptrs: seq<int>, start: nat, size: nat, id: nat) returns (n: Node)
    requires start + size <= |keys| == |ptrs| && 1 <= size <= d
    ensures n == Leaf(id, true, keys[start], keys[start..start + size], ptrs[start..start + size])
  {
    var r := new Record<int>(d, id, 0);
    FillPart(keys, start, size, r.keys);
    FillPart(ptrs, start, size, r.ptrs);
    r.searchKey, r.size, r.weight := keys[start], size, true;
    n := SealLeaf(r);
  }

  /** An internal node from `size` pointers and the keys between them. */
  method BuildInternalPart(d: Degree, keys: seq<int>, ptrs: seq<Node>, start: nat, size: nat, id: nat) returns (n: Node)
    requires start + size <= |ptrs| == |keys| + 1 && 2 <= size <= d
    ensures n == Internal(id, true, keys[start], keys[start..start + size - 1], ptrs[start..start + size])
  {
    var r := new Record<Node>(d, id, ptrs[0]);
    FillPart(keys, start, size - 1, r.keys);
    FillPart(ptrs, start, size, r.ptrs);
    r.searchKey, r.size, r.weight := keys[start], size, true;
    n := SealInternal(r);
  }

  /** Overflow: arrays of DEGREE + 1 entries are split over two leaves under a new parent. */
  method BuildOverflow(d: Degree, l: Node, key: int, value: int, top: bool, next: nat) returns (n: Node)
    requires IsLeaf(l) && |l.keys| == d
    ensures n == Halved(Inserted(l, key, value, next), (d + 1) / 2, top, next)
  {
    var keyIndex := KeyIndex(l.keys, key);
    var keys, ptrs := new int[d + 1], new int[d + 1];
    FillInserted(l.keys, keyIndex, key, keys);
    FillInserted(l.vals, keyIndex, value, ptrs);
    assert keys[..] == keys[..d + 1] && ptrs[..] == ptrs[..d + 1];
    ghost var big := Inserted(l, key, value, next);
    var size1 := (d + 1) / 2;
    var left := BuildLeafPart(d, keys[..], ptrs[..], 0, size1, next);
    var size2 := (d + 1) - size1;
    var right := BuildLeafPart(d, keys[..], ptrs[..], size1, size2, next + 1);
    assert left == CutLeft(big, size1, next) && right == CutRight(big, size1, next + 1);
    n := BuildParent(d, keys[size1], left, right, top, next + 2);
  }

  /** The new node with two children that Overflow and Split put in place. */
  method BuildParent(d: Degree, key: int, left: Node, right: Node, weight: bool, id: nat) returns (n: Node)
    ensures n == Internal(id, weight, key, [key], [left, right])
  {
    var r := new Record<Node>(d, id, left);
    r.keys[0] := key;
    r.ptrs[0] := left;
    r.ptrs[1] := right;
    r.searchKey, r.size, r.weight := key, 2, weight;
    n := SealInternal(r);
  }

  // ------------------------------------------------------------ weight repair

  method BuildAbsorb(d: Degree, p: Node, ixToL: nat, next: nat) returns (n: Node)
    requires CanFixWeight(d, p, ixToL) && |p.kids| + 1 <= d
    ensures n == Merged(p, ixToL, next)
  {
    var l := p.kids[ixToL];
    var r := new Record<Node>(d, next, l);
    FillMerged(p.kids, ixToL, l.kids, ixToL + 1, r.ptrs);
    FillMerged(p.keys, ixToL, l.keys, ixToL, r.keys);
    r.searchKey, r.size, r.weight := r.keys[0], p.Size() + l.Size() - 1, true;
    n := SealInternal(r);
  }

  /** Split: the merged arrays, of up to 2 * DEGREE entries, become two nodes. */
  method BuildSplit(d: Degree, p: Node, ixToL: nat, top: bool, next: nat) returns (n: Node)
    requires CanFixWeight(d, p, ixToL) && |p.kids| + 1 > d
    ensures n == Halved(Merged(p, ixToL, next), (|p.kids| + 1) / 2, top, next)
  {
    var l := p.kids[ixToL];
    var keys, ptrs := new int[2 * d], new Node[2 * d](_ => l);
    FillMerged(p.kids, ixToL, l.kids, ixToL + 1, ptrs);
    FillMerged(p.keys, ixToL, l.keys, ixToL, keys);
    var size := p.Size() + l.Size() - 1;
    ghost var big := Merged(p, ixToL, next);
    var ks, cs := keys[..size - 1], ptrs[..size];
    assert ks == big.keys && cs == big.kids;
    var size1 := size / 2;
    var left := BuildInternalPart(d, ks, cs, 0, size1, next);
    var size2 := size - size1;
    var right := BuildInternalPart(d, ks, cs, size1, size2, next + 1);
    assert ks[size1..size - 1] == ks[size1..] && cs[size1..size] == cs[size1..];
    n := BuildParent(d, ks[size1 - 1], left, right, top, next + 2);
  }

  // ------------------------------------------------------------ degree repair

  method BuildJoinedLeaf(d: Degree, left: Node, right: Node, searchKey: int, id: nat) returns (n: Node)
    requires IsLeaf(left) && IsLeaf(right) && left.Size() + right.Size() <= d
    ensures n == Leaf(id, true, searchKey, left.keys + right.keys, left.vals + right.vals)
  {
    var r := new Record<int>(d, id, 0);
    FillJoined(left.keys, [], right.keys, r.keys);
    FillJoined(left.vals, [], right.vals, r.ptrs);
    r.searchKey, r.size, r.weight := searchKey, left.Size() + right.Size(), true;
    n := SealLeaf(r);
  }

  method BuildJoinedInternal(d: Degree, left: Node, key: int, right: Node, searchKey: int, id: nat) returns (n: Node)
    requires IsInternal(left) && IsInternal(right) && left.Size() + right.Size() <= d
    ensures n == Internal(id, true, searchKey, left.keys + [key] + right.keys, left.kids + right.kids)
  {
    var r := new Record<Node>(d, id, left);
    FillJoined(left.keys, [key], right.keys, r.keys);
    FillJoined(left.kids, [], right.kids, r.ptrs);
    r.searchKey, r.size, r.weight := searchKey, left.Size() + right.Size(), true;
    n := SealInternal(r);
  }

  /** p without the key at leftindex and the pointer at ixToS, and with newl instead of l. */
  method BuildShrunk(d: Degree, p: Node, ixToL: nat, newl: Node, id: nat) returns (n: Node)
    requires IsInternal(p) && 2 <= |p.kids| <= d && ixToL < |p.kids|
    ensures var i := LeftOf(ixToL);
            n == Internal(id, true, p.searchKey, p.keys[..i] + p.keys[i + 1..], p.kids[..i] + [newl] + p.kids[i + 2..])
  {
    var ixToS := if ixToL > 0 then ixToL - 1 else 1;
    var leftindex := if ixToL < ixToS then ixToL else ixToS;
    var r := new Record<Node>(d, id, newl);
    FillWithout(p.keys, leftindex, r.keys);
    FillShrunk(p.kids, ixToL, ixToS, newl, r.ptrs);
    r.searchKey, r.size, r.weight := p.searchKey, p.Size() - 1, true;
    n := SealInternal(r);
  }

  method BuildAbsorbSibling(d: Degree, p: Node, ixToL: nat, top: bool, next: nat) returns (n: Node, newl: Node)
    requires CanFixDegree(d, p, ixToL)
    requires p.kids[ixToL].Size() + p.kids[Sibling(ixToL)].Size() < 2 * MinDegree(d)
    ensures n == AbsorbSiblingPatch(d, p, ixToL, top, next).node
    ensures newl == Joined(p, LeftOf(ixToL), next, p.kids[ixToL].searchKey)
    ensures top && |p.kids| == 2 ==> n == newl
  {
    var ixToS := if ixToL > 0 then ixToL - 1 else 1;
    var leftindex, rightindex := if ixToL < ixToS then ixToL else ixToS, if ixToL < ixToS then ixToS else ixToL;
    var left, right := p.kids[leftindex], p.kids[rightindex];
    if left.Leaf? {
      newl := BuildJoinedLeaf(d, left, right, p.kids[ixToL].searchKey, next);
    } else {
      newl := BuildJoinedInternal(d, left, p.keys[leftindex], right, p.kids[ixToL].searchKey, next);
    }
    if top && p.Size() == 2 {
      n := newl;
    } else {
      n := BuildShrunk(d, p, ixToL, newl, next + 1);
    }
  }

  /** A leaf from the next `size` entries of the combined arrays. */
  method PullLeaf(d: Degree, keys: seq<int>, ptrs: seq<int>, k: nat, size: nat, id: nat) returns (n: Node, k1: nat)
    requires k + size <= |keys| == |ptrs| && 1 <= size <= d
    ensures n == Leaf(id, true, keys[k], keys[k..k + size], ptrs[k..k + size]) && k1 == k + size
  {
    var r := new Record<int>(d, id, 0);
    k1 := Pull(keys, k, r.keys, size);
    var k2 := Pull(ptrs, k, r.ptrs, size);
    r.searchKey, r.size, r.weight := r.keys[0], size, true;
    n := SealLeaf(r);
  }

  /** An internal node from the next `size` pointers and size - 1 keys of the combined arrays. */
  method PullInternal(d: Degree, keys: seq<int>, ptrs: seq<Node>, k: nat, size: nat, id: nat) returns (n: Node, k1: nat)
    requires k + size <= |ptrs| == |keys| + 1 && 2 <= size <= d
    ensures n == Internal(id, true, keys[k], keys[k..k + size - 1], ptrs[k..k + size]) && k1 == k + size - 1
  {
    var r := new Record<Node>(d, id, ptrs[0]);
    k1 := Pull(keys, k, r.keys, size - 1);
    var k2 := Pull(ptrs, k, r.ptrs, size);
    r.searchKey, r.size, r.weight := r.keys[0], size, true;
    n := SealInternal(r);
  }

  /** The arrays of 2 * DEGREE entries that hold the contents of both leaves. */
  method CombineLeaves(d: Degree, left: Node, right: Node) returns (ks: seq<int>, vs: seq<int>)
    requires IsLeaf(left) && IsLeaf(right) && left.Size() <= d && right.Size() <= d
    ensures ks == left.keys + right.keys && vs == left.vals + right.vals
  {
    var keys, ptrs := new int[2 * d], new int[2 * d];
    FillJoined(left.keys, [], right.keys, keys);
    FillJoined(left.vals, [], right.vals, ptrs);
    var sz := left.Size() + right.Size();
    ks, vs := keys[..sz], ptrs[..sz];
  }

  method BuildShareLeaf(d: Degree, left: Node, right: Node, next: nat) returns (keyp: int, x: Node, y: Node)
    requires IsLeaf(left) && IsLeaf(right)
    requires left.Size() <= d && right.Size() <= d && left.Size() + right.Size() >= 2
    ensures var ks, vs, m := left.keys + right.keys, left.vals + right.vals, (left.Size() + right.Size()) / 2;
            && keyp == ks[m]
            && x == Leaf(next + 1, true, ks[0], ks[..m], vs[..m])
            && y == Leaf(next + 2, true, ks[m], ks[m..], vs[m..])
  {
    var sz := left.Size() + right.Size();
    var leftsz := sz / 2;
    var ks, vs := CombineLeaves(d, left, right);
    var k1;
    x, k1 := PullLeaf(d, ks, vs, 0, leftsz, next + 1);
    keyp := ks[k1];
    y, k1 := PullLeaf(d, ks, vs, k1, sz - leftsz, next + 2);
    assert ks[leftsz..sz] == ks[leftsz..] && vs[leftsz..sz] == vs[leftsz..];
  }

  /** The arrays of 2 * DEGREE entries that hold the contents of both internal nodes. */
  method CombineInternals(d: Degree, left: Node, key: int, right: Node) returns (ks: seq<int>, cs: seq<Node>)
    requires IsInternal(left) && IsInternal(right) && left.Size() <= d && right.Size() <= d
    ensures ks == left.keys + [key] + right.keys && cs == left.kids + right.kids
  {
    var keys, ptrs := new int[2 * d], new Node[2 * d](_ => left);
    FillJoined(left.keys, [key], right.keys, keys);
    FillJoined(left.kids, [], right.kids, ptrs);
    var sz := left.Size() + right.Size();
    ks, cs := keys[..sz - 1], ptrs[..sz];
  }

  method BuildShareInternal(d: Degree, left: Node, key: int, right: Node, next: nat) returns (keyp: int, x: Node, y: Node)
    requires IsInternal(left) && IsInternal(right) && left.Size() + right.Size() >= 4
    requires left.Size() <= d && right.Size() <= d
    ensures var ks, cs, m := left.keys + [key] + right.keys, left.kids + right.kids, (left.Size() + right.Size()) / 2;
            && keyp == ks[m - 1]
            && x == Internal(next + 1, true, ks[0], ks[..m - 1], cs[..m])
            && y == Internal(next + 2, true, ks[m], ks[m..], cs[m..])
  {
    var sz := left.Size() + right.Size();
    var leftsz := sz / 2;
    var ks, cs := CombineInternals(d, left, key, right);
    var k1;
    x, k1 := PullInternal(d, ks, cs, 0, leftsz, next + 1);
    keyp := ks[k1];
    k1 := k1 + 1;
    y, k1 := PullInternal(d, ks, cs, k1, sz - leftsz, next + 2);
    assert ks[leftsz..sz - 1] == ks[leftsz..] && cs[leftsz..sz] == cs[leftsz..];
  }

  /** p with a new key at leftindex between two new children. */
  method BuildReseated(d: Degree, p: Node, i: nat, keyp: int, x: Node, y: Node, id: nat) returns (n: Node)
    requires IsInternal(p) && |p.kids| <= d && i < |p.keys|
    ensures n == Internal(id, true, p.searchKey, p.keys[i := keyp], p.kids[i := x][i + 1 := y])
  {
    var r := new Record<Node>(d, id, x);
    FillPart(p.keys, 0, |p.keys|, r.keys);
    FillPart(p.kids, 0, p.Size(), r.ptrs);
    assert p.keys[0..0 + |p.keys|] == p.keys && p.kids[0..0 + p.Size()] == p.kids;
    r.keys[i] := keyp;
    assert r.keys[..|p.keys|] == p.keys[i := keyp];
    r.ptrs[i] := x;
    r.ptrs[i + 1] := y;
    assert r.ptrs[..p.Size()] == p.kids[i := x][i + 1 := y];
    r.searchKey, r.size, r.weight := p.searchKey, p.Size(), true;
    n := SealInternal(r);
  }

  lemma SharedLeafHalves(p: Node, i: nat, n: nat, x: Node, y: Node, keyp: int)
    requires IsInternal(p) && i < |p.keys| && IsLeaf(p.kids[i]) && IsLeaf(p.kids[i + 1])
    requires p.kids[i].Size() + p.kids[i + 1].Size() >= 2
    requires var ks, vs := p.kids[i].keys + p.kids[i + 1].keys, p.kids[i].vals + p.kids[i + 1].vals;
             var m := (p.kids[i].Size() + p.kids[i + 1].Size()) / 2;
             keyp == ks[m] && x == Leaf(n + 1, true, ks[0], ks[..m], vs[..m]) && y == Leaf(n + 2, true, ks[m], ks[m..], vs[m..])
    ensures var big := Joined(p, i, n, p.searchKey);
            var m := big.Size() / 2;
            CanCut(big, m) && keyp == CutKey(big, m) && x == CutLeft(big, m, n + 1) && y == CutRight(big, m, n + 2)
  {
  }

  lemma SharedInternalHalves(p: Node, i: nat, n: nat, x: Node, y: Node, keyp: int)
    requires IsInternal(p) && i < |p.keys| && IsInternal(p.kids[i]) && IsInternal(p.kids[i + 1])
    requires p.kids[i].Size() + p.kids[i + 1].Size() >= 4
    requires var ks, cs := p.kids[i].keys + [p.keys[i]] + p.kids[i + 1].keys, p.kids[i].kids + p.kids[i + 1].kids;
             var m := (p.kids[i].Size() + p.kids[i + 1].Size()) / 2;
             && keyp == ks[m - 1]
             && x == Internal(n + 1, true, ks[0], ks[..m - 1], cs[..m])
             && y == Internal(n + 2, true, ks[m], ks[m..], cs[m..])
    ensures var big := Joined(p, i, n, p.searchKey);
            var m := big.Size() / 2;
            CanCut(big, m) && keyp == CutKey(big, m) && x == CutLeft(big, m, n + 1) && y == CutRight(big, m, n + 2)
  {
  }

  lemma ReseatedIs(d: Degree, p: Node, ix: nat, n: nat, keyp: int, x: Node, y: Node)
    requires CanFixDegree(d, p, ix)
    requires p.kids[ix].Size() + p.kids[Sibling(ix)].Size() >= 2 * MinDegree(d)
    requires var big := Joined(p, LeftOf(ix), n, p.searchKey);
             var m := big.Size() / 2;
             CanCut(big, m) && keyp == CutKey(big, m) && x == CutLeft(big, m, n + 1) && y == CutRight(big, m, n + 2)
    ensures var i := LeftOf(ix);
            DistributePatch(d, p, ix, n).node == Internal(n, true, p.searchKey, p.keys[i := keyp], p.kids[i := x][i + 1 := y])
  {
    hide Joined, CutKey, CutLeft, CutRight, CanCut;
  }

  /** The halves of children i and i + 1 taken together, and the key between them. */
  method BuildShare(d: Degree, p: Node, i: nat, next: nat) returns (keyp: int, x: Node, y: Node)
    requires IsInternal(p) && i < |p.keys|
    requires p.kids[i].Size() <= d && p.kids[i + 1].Size() <= d && p.kids[i].Size() + p.kids[i + 1].Size() >= 4
    requires (IsLeaf(p.kids[i]) && IsLeaf(p.kids[i + 1])) || (IsInternal(p.kids[i]) && IsInternal(p.kids[i + 1]))
    ensures var big := Joined(p, i, next, p.searchKey);
            var m := big.Size() / 2;
            CanCut(big, m) && keyp == CutKey(big, m) && x == CutLeft(big, m, next + 1) && y == CutRight(big, m, next + 2)
  {
    hide Joined, CutKey, CutLeft, CutRight, CanCut;
    var left, right := p.kids[i], p.kids[i + 1];
    if left.Leaf? {
      keyp, x, y := BuildShareLeaf(d, left, right, next);
      SharedLeafHalves(p, i, next, x, y, keyp);
    } else {
      keyp, x, y := BuildShareInternal(d, left, p.keys[i], right, next);
      SharedInternalHalves(p, i, next, x, y, keyp);
    }
  }

  method BuildDistribute(d: Degree, p: Node, ixToL: nat, next: nat) returns (n: Node)
    requires CanFixDegree(d, p, ixToL)
    requires p.kids[ixToL].Size() + p.kids[Sibling(ixToL)].Size() >= 2 * MinDegree(d)
    ensures n == DistributePatch(d, p, ixToL, next).node
  {
    var ixToS := if ixToL > 0 then ixToL - 1 else 1;
    var leftindex := if ixToL < ixToS then ixToL else ixToS;
    hide DistributePatch, Joined, CutKey, CutLeft, CutRight, CanCut;
    var keyp, x, y := BuildShare(d, p, leftindex, next);
    ReseatedIs(d, p, ixToL, next, keyp, x, y);
    n := BuildReseated(d, p, leftindex, keyp, x, y, next);
  }
}
