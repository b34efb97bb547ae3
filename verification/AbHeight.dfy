/** The shape of a strict tree: all leaves at one depth, and exponentially many keys. */
module AbHeight {
  import opened AbNodes
  import opened AbOrderProofs
  import opened AbOutcomes
  import opened AbPaths
  import opened AbSystem
  import opened AbSizes
  import opened AbRebalance

  function Height(t: Node): nat
    decreases t, 1
  {
    if t.Leaf? then 0 else 1 + Tallest(t.kids)
  }

  function Tallest(kids: seq<Node>): nat
    decreases kids, 0
  {
    if kids == [] then 0 else
      var x, y := Height(kids[|kids| - 1]), Tallest(kids[..|kids| - 1]);
      if x > y then x else y
  }

  /** getHeight: the running maximum over the children. */
  method GetHeight(t: Node) returns (h: nat)
    ensures h == Height(t)
    decreases t
  {
    if t.Leaf? {
      return 0;
    }
    var result := 0;
    for i := 0 to |t.kids|
      invariant result == Tallest(t.kids[..i])
    {
      var x := GetHeight(t.kids[i]);
      assert t.kids[..i + 1][..i] == t.kids[..i];
      if x > result {
        result := x;
      }
    }
    assert t.kids[..|t.kids|] == t.kids;
    h := result + 1;
  }

  /** Number of keys stored below t. */
  function KeyCount(t: Node): nat
    decreases t, 1
  {
    if t.Leaf? then |t.keys| else KeyCountF(t.kids)
  }

  function KeyCountF(kids: seq<Node>): nat
    decreases kids, 0
  {
    if kids == [] then 0 else KeyCount(kids[0]) + KeyCountF(kids[1..])
  }

  /** Every path from t to a leaf has exactly n edges. */
  ghost predicate LeavesAt(t: Node, n: int)
    decreases t
  {
    if t.Leaf? then n == 0 else n > 0 && forall i :: 0 <= i < |t.kids| ==> LeavesAt(t.kids[i], n - 1)
  }

  function Pow(a: nat, n: nat): nat {
    if n == 0 then 1 else a * Pow(a, n - 1)
  }

  /** No violation at or below t. */
  ghost predicate Sound(a: nat, t: Node) {
    Count(Bad(a), t, 0) == 0
  }

  lemma SoundKids(a: nat, t: Node, depth: nat, i: nat)
    requires t.Internal? && i < |t.kids| && CountF(Bad(a), t.kids, depth) == 0
    ensures Sound(a, t.kids[i]) && t.kids[i].weight && a <= t.kids[i].Size()
  {
    ForestPart(Bad(a), t.kids, i, depth);
    Depthless(Bad(a), t.kids[i], depth, 0);
    OwnCount(Bad(a), t.kids[i], 0);
  }

  lemma {:induction false} SoundLeaves(d: Degree, a: nat, t: Node, sp: Span)
    requires Wf(d, t, sp) && t.weight && CountF(Bad(a), t.Kids(), 0) == 0
    ensures LeavesAt(t, sp.h - 1)
    decreases t
  {
    if t.Internal? {
      WfWSum(d, t, sp);
      forall i | 0 <= i < |t.kids| ensures LeavesAt(t.kids[i], sp.h - 2) {
        var c := t.kids[i];
        SoundKids(a, t, 0, i);
        RootViolations(a, c);
        SoundLeaves(d, a, c, Slot(t.keys, sp.(h := sp.h - 1), i));
      }
    }
  }

  lemma {:induction false} LeavesHeight(t: Node, n: nat)
    requires LeavesAt(t, n) && (t.Internal? ==> t.kids != [])
    requires t.Internal? ==> forall i :: 0 <= i < |t.kids| ==> NoEmpty(t.kids[i])
    ensures Height(t) == n
    decreases t, 1
  {
    if t.Internal? {
      LeavesTallest(t.kids, n - 1);
    }
  }

  /** No internal node without children. */
  ghost predicate NoEmpty(t: Node)
    decreases t
  {
    t.Internal? ==> t.kids != [] && forall i :: 0 <= i < |t.kids| ==> NoEmpty(t.kids[i])
  }

  lemma {:induction false} LeavesTallest(kids: seq<Node>, n: nat)
    requires kids != [] && forall i :: 0 <= i < |kids| ==> LeavesAt(kids[i], n) && NoEmpty(kids[i])
    ensures Tallest(kids) == n
    decreases kids, 0
  {
    LeavesHeight(kids[|kids| - 1], n);
    if |kids| > 1 {
      LeavesTallest(kids[..|kids| - 1], n);
    }
  }

  lemma {:induction false} WfNoEmpty(d: Degree, t: Node, sp: Span)
    requires Wf(d, t, sp)
    ensures NoEmpty(t)
    decreases t
  {
    if t.Internal? {
      forall i | 0 <= i < |t.kids| ensures NoEmpty(t.kids[i]) {
        WfNoEmpty(d, t.kids[i], Slot(t.keys, sp.(h := sp.h - t.W()), i));
      }
    }
  }

  lemma {:induction false} KeysInForest(kids: seq<Node>, m: nat)
    requires forall i :: 0 <= i < |kids| ==> KeyCount(kids[i]) >= m
    ensures KeyCountF(kids) >= |kids| * m
  {
    if kids != [] {
      KeysInForest(kids[1..], m);
      assert |kids| * m == m + (|kids| - 1) * m;
    }
  }

  lemma {:induction false} SoundKeys(d: Degree, a: nat, t: Node, sp: Span)
    requires Wf(d, t, sp) && Sound(a, t)
    ensures sp.h >= 1 && KeyCount(t) >= Pow(a, sp.h)
    decreases t
  {
    WfWSum(d, t, sp);
    OwnCount(Bad(a), t, 0);
    RootViolations(a, t);
    if t.Leaf? {
      assert Pow(a, 1) == a * Pow(a, 0);
    } else {
      forall i | 0 <= i < |t.kids| ensures KeyCount(t.kids[i]) >= Pow(a, sp.h - 1) {
        SoundKids(a, t, 0, i);
        SoundKeys(d, a, t.kids[i], Slot(t.keys, sp.(h := sp.h - 1), i));
      }
      KeysInForest(t.kids, Pow(a, sp.h - 1));
      Scale(a, |t.kids|, Pow(a, sp.h - 1));
    }
  }

  lemma Scale(x: nat, y: nat, m: nat)
    requires x <= y
    ensures x * m <= y * m
  {
  }

  lemma RootKeys(d: Degree, a: nat, t: Node, sp: Span)
    requires Wf(d, t, sp) && RootFits(t) && t.Internal? && Violations(a, t) == 0
    ensures sp.h >= 2 && KeyCount(t) >= 2 * Pow(a, sp.h - 1)
  {
    WfWSum(d, t, sp);
    forall i | 0 <= i < |t.kids| ensures KeyCount(t.kids[i]) >= Pow(a, sp.h - 1) {
      SoundKids(a, t, 0, i);
      SoundKeys(d, a, t.kids[i], Slot(t.keys, sp.(h := sp.h - 1), i));
    }
    KeysInForest(t.kids, Pow(a, sp.h - 1));
    Scale(2, |t.kids|, Pow(a, sp.h - 1));
  }

  // ------------------------------------------------------------ height, on any tree

  lemma {:induction false} TallestKid(kids: seq<Node>) returns (i: nat)
    requires kids != []
    ensures i < |kids| && Height(kids[i]) == Tallest(kids)
  {
    var k := |kids| - 1;
    i := k;
    if k > 0 && Height(kids[k]) <= Tallest(kids[..k]) {
      i := TallestKid(kids[..k]);
    }
  }

  lemma {:induction false} NoTaller(kids: seq<Node>, i: nat)
    requires i < |kids|
    ensures Height(kids[i]) <= Tallest(kids)
  {
    if i < |kids| - 1 {
      NoTaller(kids[..|kids| - 1], i);
    }
  }

  lemma {:induction false} PathsFit(t: Node, path: seq<nat>)
    requires Valid(t, path)
    ensures |path| <= Height(t)
  {
    if path != [] {
      PathsFit(t.kids[path[0]], path[1..]);
      NoTaller(t.kids, path[0]);
    }
  }

  /** The height is the length of a longest path, which ends in a leaf. */
  lemma {:induction false} HeightIsLongest(t: Node) returns (path: seq<nat>)
    requires NoEmpty(t)
    ensures Valid(t, path) && Under(t, path).Leaf? && |path| == Height(t)
    ensures forall x :: Valid(t, x) ==> |x| <= Height(t)
    decreases t
  {
    path := [];
    if t.Internal? {
      var i := TallestKid(t.kids);
      var rest := HeightIsLongest(t.kids[i]);
      path := [i] + rest;
      assert path[1..] == rest;
    }
    forall x | Valid(t, x) ensures |x| <= Height(t) {
      PathsFit(t, x);
    }
  }

  // -------------------------------------------------------------------- keys

  ghost function KeysOf(t: Node): set<int>
    decreases t, 1
  {
    if t.Leaf? then set k | k in t.keys else KeysOfF(t.kids)
  }

  ghost function KeysOfF(kids: seq<Node>): set<int>
    decreases kids, 0
  {
    if kids == [] then {} else KeysOf(kids[0]) + KeysOfF(kids[1..])
  }

  lemma {:induction false} DistinctKeys(keys: seq<int>)
    requires Sorted(keys)
    ensures |set k | k in keys| == |keys|
  {
    if keys != [] {
      var n := |keys| - 1;
      var rest := set k | k in keys[..n];
      DistinctKeys(keys[..n]);
      assert keys == keys[..n] + [keys[n]];
      assert (set k | k in keys) == rest + {keys[n]};
      assert keys[n] !in rest;
    }
  }

  lemma {:induction false} KeysInSpan(d: Degree, t: Node, sp: Span)
    requires Wf(d, t, sp)
    ensures |KeysOf(t)| == KeyCount(t) && forall k :: k in KeysOf(t) ==> sp.Has(k)
    decreases t, 1
  {
    if t.Leaf? {
      DistinctKeys(t.keys);
    } else {
      assert t.kids[0..] == t.kids;
      KidsInSpan(d, t.keys, t.kids, sp.(h := sp.h - t.W()), 0);
    }
  }

  /** The keys of different children are different: they are in different slots. */
  lemma {:induction false} KidsInSpan(d: Degree, keys: seq<int>, kids: seq<Node>, sp: Span, i: nat)
    requires Fan(d, keys, kids, sp) && i <= |kids|
    ensures |KeysOfF(kids[i..])| == KeyCountF(kids[i..])
    ensures forall k :: k in KeysOfF(kids[i..]) ==> sp.Has(k) && (i > 0 ==> keys[i - 1] <= k)
    decreases kids, 0, |kids| - i
  {
    if i < |kids| {
      var c, rest := kids[i], kids[i + 1..];
      assert kids[i..][0] == c && kids[i..][1..] == rest;
      KeysInSpan(d, c, Slot(keys, sp, i));
      KidsInSpan(d, keys, kids, sp, i + 1);
      forall k | k in KeysOf(c) ensures k !in KeysOfF(rest) {
        assert i < |keys| ==> k < keys[i];
        assert i == |keys| ==> rest == [];
      }
      assert i > 0 ==> sp.Inside(keys[i - 1]);
      assert i < |keys| ==> sp.Inside(keys[i]);
    }
  }

  lemma {:induction false} KeysFound(d: Degree, t: Node, sp: Span, k: int)
    requires Wf(d, t, sp)
    ensures k in KeysOf(t) <==> Lookup(t, k).Some?
    decreases t, 1
  {
    if t.Leaf? {
      HasKeyIn(t, k);
    } else {
      var c := ChildIndex(t.keys, k);
      KeysFound(d, t.kids[c], Slot(t.keys, sp.(h := sp.h - t.W()), c), k);
      forall i | 0 <= i < |t.kids| && k in KeysOf(t.kids[i]) ensures i == c {
        KeysInSpan(d, t.kids[i], Slot(t.keys, sp.(h := sp.h - t.W()), i));
        ChildIndexUnique(t.keys, k, i);
      }
      InForest(t.kids, k);
    }
  }

  lemma {:induction false} InForest(kids: seq<Node>, k: int)
    ensures k in KeysOfF(kids) <==> exists i :: 0 <= i < |kids| && k in KeysOf(kids[i])
  {
    if kids != [] {
      InForest(kids[1..], k);
      if i :| 0 <= i < |kids| && k in KeysOf(kids[i]) {
        assert i > 0 ==> kids[1..][i - 1] == kids[i];
      }
      if k in KeysOfF(kids[1..]) {
        var j :| 0 <= j < |kids[1..]| && k in KeysOf(kids[1..][j]);
        assert kids[j + 1] == kids[1..][j];
      }
    }
  }

  lemma {:induction false} PowGrows(x: nat, y: nat, n: nat)
    requires x <= y
    ensures Pow(x, n) <= Pow(y, n)
  {
    if n > 0 {
      PowGrows(x, y, n - 1);
      Scale(x, y, Pow(x, n - 1));
      Scale(Pow(x, n - 1), Pow(y, n - 1), y);
    }
  }

  /** A strict tree has all its leaves at depth getHeight, and a tree of height h >= 1 maps at least 2 * q^h
      keys, for q = 2 and for every q <= DEGREE/4. */
  lemma StrictShape(d: Degree, s: State, q: nat)
    requires Inv(d, s) && Strict(d, s.root) && (q == 2 || 4 * q <= d)
    ensures LeavesAt(s.root, Height(s.root))
    ensures forall k :: k in KeysOf(s.root) <==> Lookup(s.root, k).Some?
    ensures Height(s.root) >= 1 ==> |KeysOf(s.root)| >= 2 * Pow(q, Height(s.root))
  {
    var t, a, sp := s.root, MinDegree(d), Top(s.root);
    SoundLeaves(d, a, t, sp);
    WfNoEmpty(d, t, sp);
    WfWSum(d, t, sp);
    LeavesHeight(t, sp.h - 1);
    forall k ensures k in KeysOf(t) <==> Lookup(t, k).Some? {
      KeysFound(d, t, sp, k);
    }
    KeysInSpan(d, t, sp);
    if t.Internal? {
      RootKeys(d, a, t, sp);
      PowGrows(q, a, Height(t));
    }
  }
}
