/** The tree as a transition system whose steps are the successful SCX
    operations of any number of threads. */
module AbSystem {
  import opened AbNodes
  import opened AbOrderProofs
  import opened AbPatches
  import opened AbCountProofs
  import opened AbSearchProofs
  import opened AbOutcomes
  import opened AbPaths

  /** What the entry points at, the next unused address, and what was handed to the reclaimer. */
  datatype State = State(root: Node, next: nat, retired: seq<nat>)

  /** An update at the leaf where its search ended, or a repair at the child ix of the node at `path`. */
  datatype Action =
    | Put(key: int, val: int)
    | Del(key: int)
    | FixWeight(path: seq<nat>, ix: nat)
    | FixDegree(path: seq<nat>, ix: nat)

  function Initial(anyKey: int): State {
    State(Leaf(0, true, anyKey, [], []), 1, [])
  }

  function Top(t: Node): Span {
    Span(None, None, WSum(t))
  }

  /** How often an address is linked or retired. */
  function Uses(s: State, id: nat): nat {
    Count(Address(id), s.root, 0) + multiset(s.retired)[id]
  }

  ghost predicate RootFits(t: Node) {
    t.weight && (t.Internal? ==> |t.kids| >= 2)
  }

  /** The relaxed (a,b)-tree: ordered and balanced by weight, with each address
      so far in exactly one of two places: linked, or retired once. */
  ghost predicate Inv(d: Degree, s: State) {
    && Wf(d, s.root, Top(s.root))
    && RootFits(s.root)
    && forall id: nat :: Uses(s, id) == Fresh(0, s.next, id)
  }

  function LeafPath(t: Node, k: int): seq<nat> {
    if t.Leaf? then [] else
      var i := ChildIndex(t.keys, k);
      if i < |t.kids| then [i] + LeafPath(t.kids[i], k) else []
  }

  /** A search for k that has come to a leaf went down the leaf path. */
  lemma {:induction false} SearchEnds(t: Node, k: int, path: seq<nat>)
    requires Valid(t, path) && OnSearch(t, k, path) && Under(t, path).Leaf?
    ensures path == LeafPath(t, k)
  {
    if path != [] {
      SearchEnds(t.kids[path[0]], k, path[1..]);
    }
  }

  function Place(s: State, act: Action): seq<nat> {
    match act
    case Put(k, _) => LeafPath(s.root, k)
    case Del(k) => LeafPath(s.root, k)
    case FixWeight(path, _) => path
    case FixDegree(path, _) => path
  }

  ghost predicate Enabled(d: Degree, s: State, act: Action) {
    && Valid(s.root, Place(s, act))
    && var p := Under(s.root, Place(s, act));
       match act
       case Put(_, _) => IsLeaf(p) && |p.keys| <= d
       case Del(k) => IsLeaf(p) && |p.keys| <= d && HasKey(p, k)
       case FixWeight(_, ix) => CanFixWeight(d, p, ix)
       case FixDegree(_, ix) => CanFixDegree(d, p, ix)
  }

  function Replacement(d: Degree, s: State, act: Action): Patch
    requires Enabled(d, s, act)
  {
    var path := Place(s, act);
    var p, top := Under(s.root, path), path == [];
    match act
    case Put(k, v) => PutPatch(d, p, k, v, top, s.next)
    case Del(k) => DelPatch(p, k, s.next)
    case FixWeight(_, ix) => WeightPatch(d, p, ix, top, s.next)
    case FixDegree(_, ix) => DegreePatch(d, p, ix, top, s.next)
  }

  /** The pointer swing, then the calls to retire. */
  function Swing(s: State, path: seq<nat>, x: Patch): State
    requires Valid(s.root, path)
  {
    State(Graft(s.root, path, x.node), x.next, s.retired + x.retired)
  }

  function Next(d: Degree, s: State, act: Action): State
    requires Enabled(d, s, act)
  {
    Swing(s, Place(s, act), Replacement(d, s, act))
  }

  // --------------------------------------------------- what the steps have in common

  lemma {:induction false} LeafPathOk(t: Node, k: int, d: Degree, sp: Span)
    requires Wf(d, t, sp)
    ensures Valid(t, LeafPath(t, k)) && OnSearch(t, k, LeafPath(t, k)) && Under(t, LeafPath(t, k)).Leaf?
    decreases t
  {
    if t.Internal? {
      var i := ChildIndex(t.keys, k);
      LeafPathOk(t.kids[i], k, d, Slot(t.keys, sp.(h := sp.h - t.W()), i));
      assert LeafPath(t, k)[1..] == LeafPath(t.kids[i], k);
    }
  }

  // Places one and two pointers below the root.

  lemma OneDown(t: Node, i: nat, n: Node)
    requires t.Internal? && i < |t.kids|
    ensures Valid(t, [i]) && Under(t, [i]) == t.kids[i] && Graft(t, [i], n) == t.(kids := t.kids[i := n])
    ensures forall k :: ChildIndex(t.keys, k) == i && t.kids[i].Leaf? ==> LeafPath(t, k) == [i]
  {
    assert [i][1..] == [];
  }

  lemma TwoDown(t: Node, i: nat, j: nat, n: Node)
    requires t.Internal? && i < |t.kids| && t.kids[i].Internal? && j < |t.kids[i].kids|
    ensures Valid(t, [i, j]) && Under(t, [i, j]) == t.kids[i].kids[j]
    ensures Graft(t, [i, j], n) == t.(kids := t.kids[i := t.kids[i].(kids := t.kids[i].kids[j := n])])
    ensures forall k :: ChildIndex(t.keys, k) == i && ChildIndex(t.kids[i].keys, k) == j && t.kids[i].kids[j].Leaf? ==>
              LeafPath(t, k) == [i, j]
  {
    assert [i, j][1..] == [j];
    OneDown(t.kids[i], j, n);
  }

  lemma PlaceWf(d: Degree, s: State, act: Action)
    requires Inv(d, s) && Enabled(d, s, act)
    ensures Wf(d, Under(s.root, Place(s, act)), SpanAt(s.root, Place(s, act), Top(s.root)))
    ensures act.Put? || act.Del? ==> SpanAt(s.root, Place(s, act), Top(s.root)).Has(act.key)
  {
    UnderWf(d, s.root, Place(s, act), Top(s.root));
    if act.Put? || act.Del? {
      LeafPathOk(s.root, act.key, d, Top(s.root));
      SearchInRange(d, s.root, Place(s, act), Top(s.root), act.key);
    }
  }

  /** The replacement fits its place; at the top it fits a root of some height. */
  lemma ReplacementWf(d: Degree, s: State, act: Action) returns (h: int)
    requires Inv(d, s) && Enabled(d, s, act)
    ensures var path := Place(s, act);
            && Wf(d, Replacement(d, s, act).node, SpanAt(s.root, path, Top(s.root)).(h := h))
            && (path != [] ==> h == SpanAt(s.root, path, Top(s.root)).h)
            && (path == [] ==> RootFits(Replacement(d, s, act).node))
  {
    var path := Place(s, act);
    var p, sp, top := Under(s.root, path), SpanAt(s.root, path, Top(s.root)), path == [];
    PlaceWf(d, s, act);
    hide Wf, Under, SpanAt, PutPatch, DelPatch, WeightPatch, DegreePatch;
    match act
    case Put(k, v) =>
      h := PutWf(d, p, k, v, top, s.next, sp);
    case Del(k) =>
      DelWf(d, p, k, s.next, sp);
      h := sp.h;
    case FixWeight(_, ix) =>
      h := WeightWf(d, p, ix, top, s.next, sp);
    case FixDegree(_, ix) =>
      h := DegreeWf(d, p, ix, top, s.next, sp);
  }

  lemma ReplacementBalanced(d: Degree, s: State, act: Action, id: nat)
    requires Inv(d, s) && Enabled(d, s, act)
    ensures var path := Place(s, act);
            Balanced(Under(s.root, path), Replacement(d, s, act), s.next, id, DepthAt(s.root, path, 0))
  {
    var path := Place(s, act);
    var p, top, e := Under(s.root, path), path == [], DepthAt(s.root, path, 0);
    PlaceWf(d, s, act);
    match act
    case Put(k, v) =>
      PutOutcome(d, p, k, v, top, s.next, e, id);
    case Del(k) =>
      DelOutcome(d, p, k, s.next, e, id);
    case FixWeight(_, ix) =>
      WeightBalanced(d, p, ix, top, s.next, e, id);
    case FixDegree(_, ix) =>
      DegreeBalanced(d, p, ix, top, s.next, e, id);
  }

  // ------------------------------------------------------------------ theorems

  lemma InitialInv(d: Degree, anyKey: int)
    ensures Inv(d, Initial(anyKey))
    ensures forall k :: Lookup(Initial(anyKey).root, k) == None
  {
  }

  /** No address is lost, linked twice, or retired twice. */
  lemma StepUses(d: Degree, s: State, act: Action, id: nat)
    requires Inv(d, s) && Enabled(d, s, act)
    ensures Uses(Next(d, s, act), id) == Fresh(0, Next(d, s, act).next, id)
    ensures Next(d, s, act).next > s.next
  {
    var path, x := Place(s, act), Replacement(d, s, act);
    ReplacementBalanced(d, s, act, id);
    assert Uses(s, id) == Fresh(0, s.next, id);
    hide Inv, Enabled, Replacement, Count;
    GraftCount(Address(id), s.root, path, x.node, 0);
  }

  lemma WfTop(d: Degree, t: Node, sp: Span)
    requires Wf(d, t, sp) && sp.lo == None && sp.hi == None
    ensures Wf(d, t, Top(t))
  {
    WfWSum(d, t, sp);
    assert sp == Top(t);
  }

  /** Every SCX keeps the relaxed (a,b)-tree a relaxed (a,b)-tree. */
  lemma StepInv(d: Degree, s: State, act: Action)
    requires Inv(d, s) && Enabled(d, s, act)
    ensures Inv(d, Next(d, s, act))
  {
    var path, x, s' := Place(s, act), Replacement(d, s, act), Next(d, s, act);
    var sp := SpanAt(s.root, path, Top(s.root));
    var h := ReplacementWf(d, s, act);
    if path == [] {
      WfTop(d, s'.root, sp.(h := h));
    } else {
      assert sp.(h := h) == sp;
      GraftWf(d, s.root, path, Top(s.root), x.node);
      WfTop(d, s'.root, Top(s.root));
    }
    forall id: nat ensures Uses(s', id) == Fresh(0, s'.next, id) {
      StepUses(d, s, act, id);
    }
  }

  /** The dictionary changes as the operation says; repairs do not change it. */
  lemma StepLookup(d: Degree, s: State, act: Action, k: int)
    requires Inv(d, s) && Enabled(d, s, act)
    ensures Lookup(Next(d, s, act).root, k) ==
            match act
            case Put(key, val) => if k == key then Some(val) else Lookup(s.root, k)
            case Del(key) => if k == key then None else Lookup(s.root, k)
            case _ => Lookup(s.root, k)
  {
    var path, x := Place(s, act), Replacement(d, s, act);
    var p, sp, top := Under(s.root, path), SpanAt(s.root, path, Top(s.root)), path == [];
    PlaceWf(d, s, act);
    match act
    case Put(key, val) =>
      UpdateLookup(d, s, act, k);
      PutLookup(d, p, key, val, top, s.next, sp, k);
    case Del(key) =>
      UpdateLookup(d, s, act, k);
      DelLookup(d, p, key, s.next, sp, k);
    case FixWeight(_, _) =>
      RepairLookup(d, s, act, k);
    case FixDegree(_, _) =>
      RepairLookup(d, s, act, k);
  }

  lemma KidCount(p: Node, i: nat, depth: nat)
    requires p.Internal? && i < |p.kids|
    ensures Count(Address(p.kids[i].id), p, depth) > 0
  {
    OwnCount(Address(p.kids[i].id), p.kids[i], depth + p.W());
    ForestPart(Address(p.kids[i].id), p.kids, i, depth + p.W());
  }

  /** Addresses that a step retires were linked. */
  lemma RetiredWasLinked(d: Degree, s: State, act: Action, id: nat)
    requires Inv(d, s) && Enabled(d, s, act) && id in Replacement(d, s, act).retired
    ensures id < s.next && Linked(s.root, id)
  {
    var path := Place(s, act);
    var p, e := Under(s.root, path), DepthAt(s.root, path, 0);
    OwnCount(Address(p.id), p, e);
    match act {
      case FixWeight(_, ix) =>
        KidCount(p, ix, e);
      case FixDegree(_, ix) =>
        KidCount(p, ix, e);
        KidCount(p, Sibling(ix), e);
      case _ =>
    }
    UnderCount(Address(id), s.root, path, 0);
    assert Uses(s, id) == Fresh(0, s.next, id);
  }

  lemma UpdateLookup(d: Degree, s: State, act: Action, k: int)
    requires Inv(d, s) && Enabled(d, s, act) && (act.Put? || act.Del?)
    ensures var path := Place(s, act);
            Lookup(Next(d, s, act).root, k) == (if OnSearch(s.root, k, path) then Lookup(Replacement(d, s, act).node, k)
                                                else Lookup(s.root, k))
            && (OnSearch(s.root, k, path) ==> Lookup(s.root, k) == Lookup(Under(s.root, path), k))
            && OnSearch(s.root, act.key, path)
  {
    var path, x := Place(s, act), Replacement(d, s, act);
    LeafPathOk(s.root, act.key, d, Top(s.root));
    GraftLookup(s.root, path, x.node, k);
    if OnSearch(s.root, k, path) {
      SearchLookup(s.root, path, k);
    }
  }

  /** A leaf a + b with a pair put between the two halves, and without it. */
  lemma MiddleGet(ak: seq<int>, av: seq<int>, key: int, val: int, bk: seq<int>, bv: seq<int>, k: int)
    requires |ak| == |av| && |bk| == |bv| && Sorted(ak) && Sorted(bk)
    requires forall j :: 0 <= j < |ak| ==> ak[j] < key
    requires forall j :: 0 <= j < |bk| ==> key < bk[j]
    ensures LeafGet(ak + ([key] + bk), av + ([val] + bv), k) == if k == key then Some(val) else LeafGet(ak + bk, av + bv, k)
    ensures LeafGet(ak + bk, av + bv, key) == None
  {
    hide LeafGet;
    assert Sorted([key] + bk);
    LeafGetJoin(ak, av, [key] + bk, [val] + bv, key, k);
    LeafGetJoin([key], [val], bk, bv, key + 1, k);
    LeafGetJoin(ak, av, bk, bv, key, k);
    LeafGetJoin(ak, av, bk, bv, key, key);
    OneGet(key, val, bk, bv, k);
    OneGet(key, val, bk, bv, key);
  }

  lemma OneGet(key: int, val: int, bk: seq<int>, bv: seq<int>, k: int)
    requires |bk| == |bv| && forall j :: 0 <= j < |bk| ==> key < bk[j]
    ensures LeafGet([key], [val], k) == if k == key then Some(val) else None
    ensures k <= key ==> LeafGet(bk, bv, k) == None
  {
  }

  lemma InsertGet(keys: seq<int>, vals: seq<int>, i: nat, key: int, val: int, k: int)
    requires Sorted(keys) && |keys| == |vals| && i <= |keys|
    requires forall j :: 0 <= j < i ==> keys[j] < key
    requires forall j :: i <= j < |keys| ==> key < keys[j]
    ensures LeafGet(InsertAt(keys, i, key), InsertAt(vals, i, val), k) == if k == key then Some(val) else LeafGet(keys, vals, k)
  {
    MiddleGet(keys[..i], vals[..i], key, val, keys[i..], vals[i..], k);
    assert keys[..i] + keys[i..] == keys && vals[..i] + vals[i..] == vals;
    assert keys[..i] + ([key] + keys[i..]) == InsertAt(keys, i, key);
    assert vals[..i] + ([val] + vals[i..]) == InsertAt(vals, i, val);
  }

  lemma RemoveGet(keys: seq<int>, vals: seq<int>, i: nat, k: int)
    requires Sorted(keys) && |keys| == |vals| && i < |keys|
    ensures LeafGet(RemoveAt(keys, i), RemoveAt(vals, i), k) == if k == keys[i] then None else LeafGet(keys, vals, k)
  {
    hide LeafGet;
    MiddleGet(keys[..i], vals[..i], keys[i], vals[i], keys[i + 1..], vals[i + 1..], k);
    assert keys[..i] + ([keys[i]] + keys[i + 1..]) == keys;
    assert vals[..i] + ([vals[i]] + vals[i + 1..]) == vals;
  }

  lemma InsertedGet(l: Node, key: int, val: int, n: nat, k: int)
    requires IsLeaf(l) && Sorted(l.keys) && !HasKey(l, key)
    ensures var t := Inserted(l, key, val, n);
            Sorted(t.keys) && LeafGet(t.keys, t.vals, k) == if k == key then Some(val) else LeafGet(l.keys, l.vals, k)
  {
    var i := KeyIndex(l.keys, key);
    assert forall e :: i < e < |l.keys| ==> l.keys[i] < l.keys[e];
    InsertSorted(l.keys, i, key);
    InsertGet(l.keys, l.vals, i, key, val, k);
  }

  lemma PutLookup(d: Degree, l: Node, key: int, val: int, top: bool, next: nat, sp: Span, k: int)
    requires l.Leaf? && Wf(d, l, sp)
    ensures Lookup(PutPatch(d, l, key, val, top, next).node, k) == if k == key then Some(val) else Lookup(l, k)
  {
    if !HasKey(l, key) {
      InsertedGet(l, key, val, next, k);
      if |l.keys| == d {
        HalvedSame(Inserted(l, key, val, next), (d + 1) / 2, top, next, k, next + 3);
      }
    }
  }

  lemma DelLookup(d: Degree, l: Node, key: int, next: nat, sp: Span, k: int)
    requires l.Leaf? && Wf(d, l, sp) && HasKey(l, key)
    ensures Lookup(DelPatch(l, key, next).node, k) == if k == key then None else Lookup(l, k)
  {
    RemoveGet(l.keys, l.vals, KeyIndex(l.keys, key), k);
  }

  lemma RepairSame(d: Degree, s: State, act: Action, k: int, id: nat)
    requires Inv(d, s) && Enabled(d, s, act) && (act.FixWeight? || act.FixDegree?)
    requires id !in Replacement(d, s, act).retired && (id < s.next || Replacement(d, s, act).next <= id)
    ensures Same(Under(s.root, Place(s, act)), Replacement(d, s, act).node, k, id)
  {
    var path := Place(s, act);
    var p, sp, top := Under(s.root, path), SpanAt(s.root, path, Top(s.root)), path == [];
    PlaceWf(d, s, act);
    var h := ReplacementWf(d, s, act);
    WfShape(d, Replacement(d, s, act).node, sp.(h := h));
    WfShape(d, p, sp);
    match act
    case FixWeight(_, ix) =>
      MergedFan(d, p, ix, s.next, sp);
      WeightSame(d, p, ix, top, s.next, k, id);
    case FixDegree(_, ix) =>
      DegreeSame(d, p, ix, top, s.next, sp, k, id);
  }

  lemma RepairLookup(d: Degree, s: State, act: Action, k: int)
    requires Inv(d, s) && Enabled(d, s, act) && (act.FixWeight? || act.FixDegree?)
    ensures Lookup(Next(d, s, act).root, k) == Lookup(s.root, k)
  {
    var x := Replacement(d, s, act);
    var id := s.next + x.next;
    if id in x.retired {
      RetiredWasLinked(d, s, act, id);
    }
    RepairSame(d, s, act, k, id);
    GraftSame(s.root, Place(s, act), x.node, k, id);
  }

  // ------------------------------------------------ nodes that stay, nodes that go

  /** A node that stays linked keeps its fields, and is passed by the same searches. */
  lemma StepStable(d: Degree, s: State, act: Action, k: int, id: nat)
    requires Inv(d, s) && Enabled(d, s, act)
    requires Linked(s.root, id) && Linked(Next(d, s, act).root, id)
    ensures SameFound(Locate(s.root, k, id), Locate(Next(d, s, act).root, k, id))
  {
    var path, x := Place(s, act), Replacement(d, s, act);
    assert Uses(s, id) == Fresh(0, s.next, id);
    StepUses(d, s, act, id);
    assert id < s.next && id !in x.retired;
    if act.Put? || act.Del? {
      UpdateLocate(d, s, act, k, id);
      GraftLocate(s.root, path, x.node, k, id);
    } else {
      RepairSame(d, s, act, k, id);
      GraftSame(s.root, path, x.node, k, id);
    }
  }

  /** Old and new leaves, and the new parent of an overflow, are no one else. */
  lemma UpdateLocate(d: Degree, s: State, act: Action, k: int, id: nat)
    requires Inv(d, s) && Enabled(d, s, act) && (act.Put? || act.Del?)
    requires id < s.next && id !in Replacement(d, s, act).retired
    ensures Locate(Under(s.root, Place(s, act)), k, id) == Locate(Replacement(d, s, act).node, k, id) == None
  {
    var n := Replacement(d, s, act).node;
    if n.Internal? {
      assert n.kids[0].Leaf? && n.kids[1].Leaf?;
    }
  }

  /** The retired addresses are exactly those that were linked before and are not after;
      everything newly linked has a fresh address. */
  lemma StepRetires(d: Degree, s: State, act: Action, id: nat)
    requires Inv(d, s) && Enabled(d, s, act)
    ensures var s' := Next(d, s, act);
            && s'.retired == s.retired + Replacement(d, s, act).retired
            && (id in Replacement(d, s, act).retired <==> Linked(s.root, id) && !Linked(s'.root, id))
            && (Linked(s'.root, id) && !Linked(s.root, id) <==> s.next <= id < s'.next)
            && Count(Address(id), s'.root, 0) <= 1
  {
    var x := Replacement(d, s, act);
    assert Uses(s, id) == Fresh(0, s.next, id);
    StepUses(d, s, act, id);
    if id in x.retired {
      RetiredWasLinked(d, s, act, id);
    }
  }

  /** No existing node becomes the root. */
  lemma StepRoot(d: Degree, s: State, act: Action)
    requires Inv(d, s) && Enabled(d, s, act)
    ensures var t := Next(d, s, act).root;
            (t.id == s.root.id && SameRecord(t, s.root)) || s.next <= t.id
  {
    var path, x := Place(s, act), Replacement(d, s, act);
    if act.FixDegree? && path == [] {
      hide Inv;
      JoinedShares(s.root, LeftOf(act.ix), s.next, s.root.kids[act.ix].searchKey);
    }
  }
}
