/** Addressing a place in a tree, and exchanging the subtree there: one atomic
    swing of a child pointer. */
module AbPaths {
  import opened AbNodes
  import opened AbCountProofs
  import opened AbSearchProofs

  /** A path of child indices from the root. */
  predicate Valid(t: Node, path: seq<nat>) {
    path == [] || (t.Internal? && path[0] < |t.kids| && Valid(t.kids[path[0]], path[1..]))
  }

  function Under(t: Node, path: seq<nat>): Node
    requires Valid(t, path)
  {
    if path == [] then t else Under(t.kids[path[0]], path[1..])
  }

  /** t with the pointer at `path` swung to n. */
  function Graft(t: Node, path: seq<nat>, n: Node): Node
    requires Valid(t, path)
  {
    if path == [] then n
    else t.(kids := t.kids[path[0] := Graft(t.kids[path[0]], path[1..], n)])
  }

  function SpanAt(t: Node, path: seq<nat>, sp: Span): Span
    requires Valid(t, path)
  {
    if path == [] || path[0] > |t.keys| then sp
    else SpanAt(t.kids[path[0]], path[1..], Slot(t.keys, sp.(h := sp.h - t.W()), path[0]))
  }

  /** The path weight above the place. */
  function DepthAt(t: Node, path: seq<nat>, depth: nat): nat
    requires Valid(t, path)
  {
    if path == [] then depth else DepthAt(t.kids[path[0]], path[1..], depth + t.W())
  }

  /** The search for k passes through this place. */
  predicate OnSearch(t: Node, k: int, path: seq<nat>) {
    path == [] || (t.Internal? && path[0] == ChildIndex(t.keys, k) < |t.kids| && OnSearch(t.kids[path[0]], k, path[1..]))
  }

  // ------------------------------------------------------------- longer paths

  lemma {:induction false} Longer(t: Node, path: seq<nat>, i: nat)
    requires Valid(t, path) && Under(t, path).Internal? && i < |Under(t, path).kids|
    ensures Valid(t, path + [i]) && Under(t, path + [i]) == Under(t, path).kids[i]
  {
    if path != [] {
      assert (path + [i])[0] == path[0] && (path + [i])[1..] == path[1..] + [i];
      Longer(t.kids[path[0]], path[1..], i);
    } else {
      assert (path + [i])[1..] == [];
    }
  }

  lemma {:induction false} LongerSearch(t: Node, k: int, path: seq<nat>, i: nat)
    requires Valid(t, path) && OnSearch(t, k, path) && Under(t, path).Internal?
    requires i == ChildIndex(Under(t, path).keys, k) < |Under(t, path).kids|
    ensures OnSearch(t, k, path + [i])
  {
    if path != [] {
      assert (path + [i])[0] == path[0] && (path + [i])[1..] == path[1..] + [i];
      LongerSearch(t.kids[path[0]], k, path[1..], i);
    } else {
      assert (path + [i])[1..] == [];
    }
  }

  // ------------------------------------------------------------------- order

  lemma {:induction false} UnderWf(d: Degree, t: Node, path: seq<nat>, sp: Span)
    requires Wf(d, t, sp) && Valid(t, path)
    ensures Wf(d, Under(t, path), SpanAt(t, path, sp))
  {
    if path != [] {
      UnderWf(d, t.kids[path[0]], path[1..], Slot(t.keys, sp.(h := sp.h - t.W()), path[0]));
    }
  }

  lemma {:induction false} GraftWf(d: Degree, t: Node, path: seq<nat>, sp: Span, n: Node)
    requires Wf(d, t, sp) && Valid(t, path) && Wf(d, n, SpanAt(t, path, sp))
    ensures Wf(d, Graft(t, path, n), sp)
  {
    if path != [] {
      GraftWf(d, t.kids[path[0]], path[1..], Slot(t.keys, sp.(h := sp.h - t.W()), path[0]), n);
    }
  }

  /** A key in the range of a place is searched for through that place. */
  lemma {:induction false} RangeOnSearch(d: Degree, t: Node, path: seq<nat>, sp: Span, k: int)
    requires Wf(d, t, sp) && Valid(t, path) && SpanAt(t, path, sp).Has(k)
    ensures OnSearch(t, k, path) && sp.Has(k)
  {
    if path != [] {
      var i, csp := path[0], Slot(t.keys, sp.(h := sp.h - t.W()), path[0]);
      RangeOnSearch(d, t.kids[i], path[1..], csp, k);
      SlotIndex(t.keys, sp.(h := sp.h - t.W()), i, k);
    }
  }

  lemma SlotIndex(keys: seq<int>, sp: Span, i: nat, k: int)
    requires Sorted(keys) && i <= |keys| && Slot(keys, sp, i).Has(k)
    requires forall j :: 0 <= j < |keys| ==> sp.Inside(keys[j])
    ensures ChildIndex(keys, k) == i && sp.Has(k)
  {
    ChildIndexUnique(keys, k, i);
  }

  lemma {:induction false} SearchInRange(d: Degree, t: Node, path: seq<nat>, sp: Span, k: int)
    requires Wf(d, t, sp) && Valid(t, path) && OnSearch(t, k, path) && sp.Has(k)
    ensures SpanAt(t, path, sp).Has(k)
  {
    if path != [] {
      SearchInRange(d, t.kids[path[0]], path[1..], Slot(t.keys, sp.(h := sp.h - t.W()), path[0]), k);
    }
  }

  // ---------------------------------------------------------------- counting

  lemma ForestSwap(q: Stat, kids: seq<Node>, i: nat, n: Node, depth: nat)
    requires i < |kids|
    ensures CountF(q, kids[i := n], depth) + Count(q, kids[i], depth) == CountF(q, kids, depth) + Count(q, n, depth)
  {
    hide Count, CountF;
    var x, z := kids[..i], kids[i + 1..];
    assert kids == x + [kids[i]] + z && kids[i := n] == x + [n] + z;
    CountThree(q, x, [kids[i]], z, depth);
    CountThree(q, x, [n], z, depth);
    CountPair(q, kids[i], n, depth);
    CountPair(q, n, n, depth);
  }

  lemma {:induction false} GraftCount(q: Stat, t: Node, path: seq<nat>, n: Node, depth: nat)
    requires Valid(t, path)
    ensures var e := DepthAt(t, path, depth);
            Count(q, Graft(t, path, n), depth) + Count(q, Under(t, path), e) == Count(q, t, depth) + Count(q, n, e)
  {
    hide Count, CountF, Own;
    if path != [] {
      var i := path[0];
      GraftCount(q, t.kids[i], path[1..], n, depth + t.W());
      GraftShell(q, t, path, n, depth);
      ForestSwap(q, t.kids, i, Graft(t.kids[i], path[1..], n), depth + t.W());
      assert Under(t, path) == Under(t.kids[i], path[1..]) && DepthAt(t, path, depth) == DepthAt(t.kids[i], path[1..], depth + t.W());
      hide Graft, Under, DepthAt;
      KidsCount(q, t, depth);
      KidsCount(q, Graft(t, path, n), depth);
    }
  }

  lemma GraftShell(q: Stat, t: Node, path: seq<nat>, n: Node, depth: nat)
    requires Valid(t, path) && path != []
    ensures Own(q, Graft(t, path, n), depth) == Own(q, t, depth)
    ensures Graft(t, path, n).Kids() == t.kids[path[0] := Graft(t.kids[path[0]], path[1..], n)]
    ensures Graft(t, path, n).W() == t.W() && t.Kids() == t.kids
  {
  }

  /** What is counted at a place is counted in the whole. */
  lemma {:induction false} UnderCount(q: Stat, t: Node, path: seq<nat>, depth: nat)
    requires Valid(t, path)
    ensures Count(q, Under(t, path), DepthAt(t, path, depth)) <= Count(q, t, depth)
    ensures path != [] ==> Own(q, t, depth) + Count(q, Under(t, path), DepthAt(t, path, depth)) <= Count(q, t, depth)
  {
    if path != [] {
      var i := path[0];
      UnderCount(q, t.kids[i], path[1..], depth + t.W());
      ForestPart(q, t.kids, i, depth + t.W());
    }
  }

  lemma ForestPart(q: Stat, kids: seq<Node>, i: nat, depth: nat)
    requires i < |kids|
    ensures Count(q, kids[i], depth) <= CountF(q, kids, depth)
  {
    hide Count, CountF;
    assert kids == kids[..i] + [kids[i]] + kids[i + 1..];
    CountThree(q, kids[..i], [kids[i]], kids[i + 1..], depth);
    CountPair(q, kids[i], kids[i], depth);
  }

  // --------------------------------------------------------------- searching

  /** The same record: equal in all fields that never change after creation. */
  predicate SameRecord(x: Node, y: Node) {
    && x.id == y.id && x.weight == y.weight && x.searchKey == y.searchKey && x.keys == y.keys
    && x.Leaf? == y.Leaf? && x.Size() == y.Size()
    && (x.Leaf? ==> x == y)
  }

  predicate SameFound(x: Option<Node>, y: Option<Node>) {
    x.Some? == y.Some? && (x.Some? ==> SameRecord(x.value, y.value))
  }

  /** An exchange that is invisible to searches locally is invisible globally. */
  lemma {:induction false} GraftSame(t: Node, path: seq<nat>, n: Node, k: int, id: nat)
    requires Valid(t, path) && Same(Under(t, path), n, k, id)
    ensures Lookup(t, k) == Lookup(Graft(t, path, n), k)
    ensures SameFound(Locate(t, k, id), Locate(Graft(t, path, n), k, id))
  {
    if path != [] {
      GraftSame(t.kids[path[0]], path[1..], n, k, id);
    }
  }

  /** The same, when only the search for nodes is unaffected. */
  lemma {:induction false} GraftLocate(t: Node, path: seq<nat>, n: Node, k: int, id: nat)
    requires Valid(t, path) && Locate(Under(t, path), k, id) == Locate(n, k, id)
    ensures SameFound(Locate(t, k, id), Locate(Graft(t, path, n), k, id))
  {
    if path != [] {
      GraftLocate(t.kids[path[0]], path[1..], n, k, id);
    }
  }

  lemma {:induction false} GraftLookup(t: Node, path: seq<nat>, n: Node, k: int)
    requires Valid(t, path)
    ensures Lookup(Graft(t, path, n), k) == if OnSearch(t, k, path) then Lookup(n, k) else Lookup(t, k)
  {
    if path != [] {
      GraftLookup(t.kids[path[0]], path[1..], n, k);
    }
  }

  lemma {:induction false} SearchLookup(t: Node, path: seq<nat>, k: int)
    requires Valid(t, path) && OnSearch(t, k, path)
    ensures Lookup(t, k) == Lookup(Under(t, path), k)
  {
    if path != [] {
      SearchLookup(t.kids[path[0]], path[1..], k);
    }
  }

  // ----------------------------------------------------------------- locating

  ghost predicate Linked(t: Node, id: nat) {
    Count(Address(id), t, 0) > 0
  }

  /** A node on the search path of k is found by that search. */
  lemma {:induction false} SearchLocates(t: Node, path: seq<nat>, k: int, depth: nat)
    requires Valid(t, path) && OnSearch(t, k, path)
    requires Count(Address(Under(t, path).id), t, depth) <= 1
    ensures Locate(t, k, Under(t, path).id) == Some(Under(t, path))
  {
    if path != [] {
      var i, q := path[0], Address(Under(t, path).id);
      UnderCount(q, t, path, depth);
      UnderCount(q, t.kids[i], path[1..], depth + t.W());
      ForestPart(q, t.kids, i, depth + t.W());
      OwnCount(q, Under(t, path), DepthAt(t, path, depth));
      SearchLocates(t.kids[i], path[1..], k, depth + t.W());
    }
  }

  lemma OwnCount(q: Stat, t: Node, depth: nat)
    ensures Own(q, t, depth) <= Count(q, t, depth)
  {
  }

  lemma {:induction false} LocatedIsLinked(t: Node, k: int, id: nat, depth: nat)
    requires Locate(t, k, id).Some?
    ensures Count(Address(id), t, depth) > 0 && Locate(t, k, id).value.id == id
    decreases t
  {
    if t.id != id {
      var i := ChildIndex(t.keys, k);
      LocatedIsLinked(t.kids[i], k, id, depth + t.W());
      ForestPart(Address(id), t.kids, i, depth + t.W());
    }
  }

  /** Every node is found by searching for its own search key. */
  lemma Locatable(d: Degree, t: Node, path: seq<nat>, sp: Span)
    requires Wf(d, t, sp) && Valid(t, path) && Count(Address(Under(t, path).id), t, 0) <= 1
    ensures Locate(t, Under(t, path).searchKey, Under(t, path).id) == Some(Under(t, path))
  {
    UnderWf(d, t, path, sp);
    RangeOnSearch(d, t, path, sp, Under(t, path).searchKey);
    SearchLocates(t, path, Under(t, path).searchKey, 0);
  }
}
