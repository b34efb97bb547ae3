/** Whole runs of the concurrent tree, and searches that read one pointer at a
    time while other threads replace nodes under them. */
module AbRuns {
  import opened AbNodes
  import opened AbOutcomes
  import opened AbPaths
  import opened AbSystem

  ghost predicate Steps(d: Degree, s: State, s': State) {
    exists act :: Enabled(d, s, act) && s' == Next(d, s, act)
  }

  /** One state per successful SCX, in order. */
  ghost predicate Run(d: Degree, r: seq<State>) {
    && r != []
    && (exists anyKey :: r[0] == Initial(anyKey))
    && forall i :: 0 <= i < |r| - 1 ==> Steps(d, r[i], r[i + 1])
  }

  lemma {:induction false} RunInv(d: Degree, r: seq<State>, i: nat)
    requires Run(d, r) && i < |r|
    ensures Inv(d, r[i])
  {
    if i == 0 {
      var anyKey :| r[0] == Initial(anyKey);
      InitialInv(d, anyKey);
    } else {
      RunInv(d, r, i - 1);
      assert Steps(d, r[i - 1], r[i]);
      var act :| Enabled(d, r[i - 1], act) && r[i] == Next(d, r[i - 1], act);
      StepInv(d, r[i - 1], act);
    }
  }

  lemma {:induction false} SpanDepth(d: Degree, t: Node, path: seq<nat>, sp: Span, depth: nat)
    requires Wf(d, t, sp) && Valid(t, path)
    ensures SpanAt(t, path, sp).h + DepthAt(t, path, depth) == sp.h + depth
  {
    if path != [] {
      SpanDepth(d, t.kids[path[0]], path[1..], Slot(t.keys, sp.(h := sp.h - t.W()), path[0]), depth + t.W());
    }
  }

  /** What the invariant means for the shape of the tree, in every state of every run: the paths
      to any two leaves have the same weight; the root has weight 1; a node has at most b entries;
      and a node of weight 0 is internal and has exactly two children. */
  lemma RelaxedBalance(d: Degree, r: seq<State>, i: nat, x: seq<nat>, y: seq<nat>)
    requires Run(d, r) && i < |r| && Valid(r[i].root, x) && Valid(r[i].root, y)
    ensures var t := r[i].root;
            && (Under(t, x).Leaf? && Under(t, y).Leaf? ==> DepthAt(t, x, 0) == DepthAt(t, y, 0))
            && t.weight && Under(t, x).Size() <= d
            && (!Under(t, x).weight ==> Under(t, x).Internal? && |Under(t, x).kids| == 2)
  {
    RunInv(d, r, i);
    var t := r[i].root;
    UnderWf(d, t, x, Top(t));
    UnderWf(d, t, y, Top(t));
    SpanDepth(d, t, x, Top(t), 0);
    SpanDepth(d, t, y, Top(t), 0);
  }

  lemma RunStep(d: Degree, r: seq<State>, i: nat) returns (act: Action)
    requires Run(d, r) && i + 1 < |r|
    ensures Inv(d, r[i]) && Enabled(d, r[i], act) && r[i + 1] == Next(d, r[i], act)
  {
    RunInv(d, r, i);
    assert Steps(d, r[i], r[i + 1]);
    act :| Enabled(d, r[i], act) && r[i + 1] == Next(d, r[i], act);
  }

  /** An address is linked at most once, and only after it was handed out; else it was retired, once. */
  lemma AddressState(d: Degree, s: State, id: nat)
    requires Inv(d, s)
    ensures Linked(s.root, id) ==> id < s.next && multiset(s.retired)[id] == 0
    ensures !Linked(s.root, id) && id < s.next ==> multiset(s.retired)[id] == 1
    ensures Count(Address(id), s.root, 0) <= 1
  {
    assert Uses(s, id) == Fresh(0, s.next, id);
  }

  lemma {:induction false} NextGrows(d: Degree, r: seq<State>, i: nat, j: nat)
    requires Run(d, r) && i <= j < |r|
    ensures r[i].next <= r[j].next
    decreases j
  {
    hide Next, Enabled, Inv, Run;
    if i < j {
      NextGrows(d, r, i, j - 1);
      var act := RunStep(d, r, j - 1);
      StepUses(d, r[j - 1], act, 0);
    }
  }

  /** An unlinked address never comes back, and has been retired exactly once. */
  lemma {:induction false} GoneForGood(d: Degree, r: seq<State>, i: nat, j: nat, id: nat)
    requires Run(d, r) && i <= j < |r|
    requires id < r[i].next && !Linked(r[i].root, id)
    ensures !Linked(r[j].root, id) && multiset(r[j].retired)[id] == 1 && id < r[j].next
    decreases j
  {
    hide Next, Enabled, Inv, Run, Linked;
    RunInv(d, r, j);
    AddressState(d, r[j], id);
    NextGrows(d, r, i, j);
    if i < j {
      GoneForGood(d, r, i, j - 1, id);
      var act := RunStep(d, r, j - 1);
      StepRetires(d, r[j - 1], act, id);
    }
  }

  lemma LinkedBetween(d: Degree, r: seq<State>, i: nat, m: nat, j: nat, id: nat)
    requires Run(d, r) && i <= m <= j < |r| && Linked(r[i].root, id) && Linked(r[j].root, id)
    ensures Linked(r[m].root, id)
  {
    hide Next, Enabled, Inv, Run, Linked;
    NextGrows(d, r, i, m);
    RunInv(d, r, i);
    AddressState(d, r[i], id);
    if !Linked(r[m].root, id) {
      GoneForGood(d, r, m, j, id);
    }
  }

  lemma SameFoundSteps(x: Option<Node>, y: Option<Node>, z: Option<Node>)
    requires SameFound(x, y) && SameFound(y, z)
    ensures SameFound(x, z)
  {
  }

  lemma SameFoundSelf(x: Option<Node>)
    ensures SameFound(x, x)
  {
  }

  lemma OneStepInPlace(d: Degree, r: seq<State>, i: nat, k: int, id: nat)
    requires Run(d, r) && i + 1 < |r| && Linked(r[i].root, id) && Linked(r[i + 1].root, id)
    ensures SameFound(Locate(r[i].root, k, id), Locate(r[i + 1].root, k, id))
  {
    var act := RunStep(d, r, i);
    StepStable(d, r[i], act, k, id);
  }

  /** A linked node that is not the root never becomes the root: where a degree repair finds its node
      there is a parent above it. */
  lemma {:induction false} NeverRoot(d: Degree, r: seq<State>, i: nat, j: nat, id: nat)
    requires Run(d, r) && i <= j < |r| && Linked(r[i].root, id) && id != r[i].root.id
    ensures id != r[j].root.id
    ensures forall path :: Valid(r[j].root, path) && Under(r[j].root, path).id == id ==> path != []
    decreases j
  {
    hide Next, Enabled, Inv, Run, Linked;
    if i < j {
      NeverRoot(d, r, i, j - 1, id);
      var act := RunStep(d, r, j - 1);
      RunInv(d, r, i);
      AddressState(d, r[i], id);
      NextGrows(d, r, i, j - 1);
      StepRoot(d, r[j - 1], act);
    }
  }

  /** While a node stays linked, the same searches pass through it. */
  lemma {:induction false} StaysInPlace(d: Degree, r: seq<State>, i: nat, j: nat, k: int, id: nat)
    requires Run(d, r) && i <= j < |r|
    requires Linked(r[i].root, id) && Linked(r[j].root, id)
    ensures SameFound(Locate(r[i].root, k, id), Locate(r[j].root, k, id))
    decreases j
  {
    hide Next, Enabled, Inv, Run, Linked, Locate, SameFound;
    if i < j {
      LinkedBetween(d, r, i, j - 1, j, id);
      StaysInPlace(d, r, i, j - 1, k, id);
      OneStepInPlace(d, r, j - 1, k, id);
      SameFoundSteps(Locate(r[i].root, k, id), Locate(r[j - 1].root, k, id), Locate(r[j].root, k, id));
    } else {
      SameFoundSelf(Locate(r[i].root, k, id));
    }
  }

  // ----------------------------------------------------------------- one search

  /** The thread held the pointer `id` at `time`. */
  datatype Visit = Visit(time: nat, id: nat)

  /** The record of `id` as it is now, or as it was when it was unlinked: the
      pointers of a finalized node no longer change. */
  ghost predicate LastSeen(r: seq<State>, id: nat, now: nat, j: nat) {
    && j <= now < |r| && Linked(r[j].root, id)
    && forall m :: j < m <= now ==> !Linked(r[m].root, id)
  }

  ghost predicate ChildFor(t: Node, path: seq<nat>, x: nat, k: int, y: nat) {
    && Valid(t, path) && Under(t, path).id == x && Under(t, path).Internal?
    && var p := Under(t, path);
       ChildIndex(p.keys, k) < |p.kids| && p.kids[ChildIndex(p.keys, k)].id == y
  }

  /** Reading, at y.time, the child pointer of x that the search for k follows. */
  ghost predicate Reads(r: seq<State>, k: int, x: Visit, y: Visit) {
    && x.time <= y.time < |r|
    && exists j: nat, path: seq<nat> :: LastSeen(r, x.id, y.time, j) && ChildFor(r[j].root, path, x.id, k, y.id)
  }

  ghost predicate Search(r: seq<State>, k: int, v: seq<Visit>) {
    && v != [] && v[0].time < |r| && v[0].id == r[v[0].time].root.id
    && forall i :: 0 <= i < |v| - 1 ==> Reads(r, k, v[i], v[i + 1])
  }

  lemma {:induction false} LocatePath(t: Node, k: int, id: nat) returns (path: seq<nat>)
    requires Locate(t, k, id).Some?
    ensures Valid(t, path) && OnSearch(t, k, path) && Under(t, path) == Locate(t, k, id).value
    decreases t
  {
    if t.id == id {
      path := [];
    } else {
      var i := ChildIndex(t.keys, k);
      var rest := LocatePath(t.kids[i], k, id);
      path := [i] + rest;
      assert path[1..] == rest;
    }
  }

  /** An address has one place only. */
  lemma {:induction false} OnePlace(t: Node, x: seq<nat>, y: seq<nat>, depth: nat)
    requires Valid(t, x) && Valid(t, y) && Under(t, x).id == Under(t, y).id
    requires Count(Address(Under(t, x).id), t, depth) <= 1
    ensures x == y
  {
    var q := Address(Under(t, x).id);
    UnderCount(q, t, x, depth);
    UnderCount(q, t, y, depth);
    OwnCount(q, Under(t, x), DepthAt(t, x, depth));
    OwnCount(q, Under(t, y), DepthAt(t, y, depth));
    if x != [] && y != [] {
      var e := depth + t.W();
      if x[0] != y[0] {
        UnderCount(q, t.kids[x[0]], x[1..], e);
        UnderCount(q, t.kids[y[0]], y[1..], e);
        TwoParts(q, t.kids, x[0], y[0], e);
      } else {
        ForestPart(q, t.kids, x[0], e);
        OnePlace(t.kids[x[0]], x[1..], y[1..], e);
      }
    }
  }

  lemma {:induction false} TwoParts(q: Stat, kids: seq<Node>, i: nat, j: nat, depth: nat)
    requires i < |kids| && j < |kids| && i != j
    ensures Count(q, kids[i], depth) + Count(q, kids[j], depth) <= CountF(q, kids, depth)
  {
    if i == 0 {
      ForestPart(q, kids[1..], j - 1, depth);
    } else if j == 0 {
      ForestPart(q, kids[1..], i - 1, depth);
    } else {
      TwoParts(q, kids[1..], i - 1, j - 1, depth);
    }
  }

  /** The child that a node on the search path of k points to is on it too. */
  lemma ChildLocated(d: Degree, s: State, k: int, path: seq<nat>, x: nat, y: nat)
    requires Inv(d, s) && Locate(s.root, k, x).Some? && ChildFor(s.root, path, x, k, y)
    ensures var p := Under(s.root, path);
            Locate(s.root, k, x) == Some(p) && Locate(s.root, k, y) == Some(p.kids[ChildIndex(p.keys, k)])
  {
    var p := Under(s.root, path);
    var c := ChildIndex(p.keys, k);
    var z := LocatePath(s.root, k, x);
    LocatedIsLinked(s.root, k, x, 0);
    assert Uses(s, x) == Fresh(0, s.next, x);
    OnePlace(s.root, path, z, 0);
    Longer(s.root, path, c);
    LongerSearch(s.root, k, path, c);
    assert Uses(s, y) == Fresh(0, s.next, y);
    SearchLocates(s.root, path + [c], k, 0);
  }

  lemma SeenAtOrAfter(d: Degree, r: seq<State>, id: nat, now: nat, i: nat, j: nat)
    requires Run(d, r) && LastSeen(r, id, now, j) && i <= now && Linked(r[i].root, id)
    ensures i <= j
  {
  }

  /** However the tree changes meanwhile, each node that a search for k visits was,
      at some moment since the search began, on the search path of k. */
  lemma {:induction false} Visited(d: Degree, r: seq<State>, k: int, v: seq<Visit>, i: nat) returns (j: nat)
    requires Run(d, r) && Search(r, k, v) && i < |v|
    ensures v[0].time <= j <= v[i].time < |r|
    ensures Locate(r[j].root, k, v[i].id).Some?
  {
    if i == 0 {
      j := v[0].time;
    } else {
      var m := Visited(d, r, k, v, i - 1);
      var x, y := v[i - 1], v[i];
      assert Reads(r, k, x, y);
      var last: nat, path: seq<nat> :| LastSeen(r, x.id, y.time, last) && ChildFor(r[last].root, path, x.id, k, y.id);
      j := last;
      LocatedIsLinked(r[m].root, k, x.id, 0);
      SeenAtOrAfter(d, r, x.id, y.time, m, j);
      StaysInPlace(d, r, m, j, k, x.id);
      RunInv(d, r, j);
      ChildLocated(d, r[j], k, path, x.id, y.id);
    }
  }

  lemma {:induction false} LastLinked(r: seq<State>, id: nat, i: nat, now: nat) returns (j: nat)
    requires i <= now < |r| && Linked(r[i].root, id)
    ensures i <= j && LastSeen(r, id, now, j)
    decreases now
  {
    hide Linked;
    j := now;
    if !Linked(r[now].root, id) {
      j := LastLinked(r, id, i, now - 1);
    }
  }

  /** A search is never stuck, whatever the others do: at any moment it can follow the pointer of the node it
      holds, linked or not, or this node is a leaf. */
  lemma SearchGoesOn(d: Degree, r: seq<State>, k: int, v: seq<Visit>, now: nat) returns (j: nat, y: nat)
    requires Run(d, r) && Search(r, k, v) && v[|v| - 1].time <= now < |r|
    ensures j <= now && Locate(r[j].root, k, v[|v| - 1].id).Some?
    ensures Locate(r[j].root, k, v[|v| - 1].id).value.Leaf? || Search(r, k, v + [Visit(now, y)])
  {
    var x := v[|v| - 1];
    var i := Visited(d, r, k, v, |v| - 1);
    LocatedIsLinked(r[i].root, k, x.id, 0);
    j := LastLinked(r, x.id, i, now);
    StaysInPlace(d, r, i, j, k, x.id);
    var path := LocatePath(r[j].root, k, x.id);
    var p := Under(r[j].root, path);
    y := 0;
    if p.Internal? {
      RunInv(d, r, j);
      UnderWf(d, r[j].root, path, Top(r[j].root));
      y := p.kids[ChildIndex(p.keys, k)].id;
      LocatedIsLinked(r[j].root, k, x.id, 0);
      assert ChildFor(r[j].root, path, x.id, k, y);
      assert Reads(r, k, x, Visit(now, y));
    }
  }

  lemma {:induction false} LocateLookup(t: Node, k: int, id: nat)
    requires Locate(t, k, id).Some?
    ensures Lookup(t, k) == Lookup(Locate(t, k, id).value, k)
    decreases t
  {
    if t.id != id {
      LocateLookup(t.kids[ChildIndex(t.keys, k)], k, id);
    }
  }

  /** A node linked at two moments is found by its own search key at both. */
  lemma RecordAt(d: Degree, r: seq<State>, m: nat, path: seq<nat>, j: nat)
    requires Run(d, r) && m < |r| && j < |r| && Valid(r[m].root, path)
    requires Linked(r[j].root, Under(r[m].root, path).id)
    ensures var n := Under(r[m].root, path);
            SameFound(Some(n), Locate(r[j].root, n.searchKey, n.id))
  {
    var n := Under(r[m].root, path);
    RunInv(d, r, m);
    RunInv(d, r, j);
    assert Uses(r[m], n.id) == Fresh(0, r[m].next, n.id);
    Locatable(d, r[m].root, path, Top(r[m].root));
    LocatedIsLinked(r[m].root, n.searchKey, n.id, 0);
    if m <= j {
      StaysInPlace(d, r, m, j, n.searchKey, n.id);
    } else {
      StaysInPlace(d, r, j, m, n.searchKey, n.id);
    }
  }

  /** `find` is linearizable: the leaf it ends at gives the answer that the
      dictionary had at some moment between its first and its last read. */
  lemma FindLinearizes(d: Degree, r: seq<State>, k: int, v: seq<Visit>, m: nat, path: seq<nat>) returns (j: nat)
    requires Run(d, r) && Search(r, k, v)
    requires m < |r| && Valid(r[m].root, path)
    requires Under(r[m].root, path).Leaf? && Under(r[m].root, path).id == v[|v| - 1].id
    ensures v[0].time <= j <= v[|v| - 1].time < |r|
    ensures Lookup(r[j].root, k) == LeafGet(Under(r[m].root, path).keys, Under(r[m].root, path).vals, k)
  {
    var n := Under(r[m].root, path);
    j := Visited(d, r, k, v, |v| - 1);
    LeafStays(d, r, k, m, path, j);
    LocateLookup(r[j].root, k, n.id);
  }

  /** The guard of the updates is enough: if p was visited by the search for k and is
      still linked, the leaf that p now has for k is the leaf of k. */
  lemma UpdateHitsLeaf(d: Degree, r: seq<State>, k: int, v: seq<Visit>, now: nat, path: seq<nat>, l: nat)
    requires Run(d, r) && Search(r, k, v) && v[|v| - 1].time <= now < |r|
    requires ChildFor(r[now].root, path, v[|v| - 1].id, k, l)
    requires var p := Under(r[now].root, path); p.kids[ChildIndex(p.keys, k)].Leaf?
    ensures Valid(r[now].root, LeafPath(r[now].root, k))
    ensures Under(r[now].root, LeafPath(r[now].root, k)).id == l
  {
    var x, t := v[|v| - 1].id, r[now].root;
    var j := Visited(d, r, k, v, |v| - 1);
    LocatedIsLinked(r[j].root, k, x, 0);
    OwnCount(Address(x), Under(t, path), DepthAt(t, path, 0));
    UnderCount(Address(x), t, path, 0);
    StaysInPlace(d, r, j, now, k, x);
    RunInv(d, r, now);
    ChildLocated(d, r[now], k, path, x, l);
    LocatedLeaf(t, k, l);
  }

  ghost predicate PointsTo(t: Node, x: nat, k: int, y: nat) {
    exists path :: ChildFor(t, path, x, k, y)
  }

  /** When the SCX of an update succeeds: the parent that its search went through (or the entry) is linked and
      still points to the leaf that was read. */
  ghost predicate Guard(r: seq<State>, k: int, v: seq<Visit>, now: nat) {
    && v != [] && v[|v| - 1].time <= now < |r|
    && if |v| == 1 then r[now].root.id == v[0].id
       else PointsTo(r[now].root, v[|v| - 2].id, k, v[|v| - 1].id)
  }

  lemma GuardLocates(d: Degree, r: seq<State>, k: int, v: seq<Visit>, now: nat)
    requires Run(d, r) && Search(r, k, v) && Guard(r, k, v, now)
    ensures Locate(r[now].root, k, v[|v| - 1].id).Some?
  {
    if |v| > 1 {
      var u, t := v[..|v| - 1], r[now].root;
      var x, l := v[|v| - 2].id, v[|v| - 1].id;
      var path :| ChildFor(t, path, x, k, l);
      assert Search(r, k, u);
      TimesGrow(r, k, v, |v| - 2, |v| - 1);
      var j := Visited(d, r, k, u, |u| - 1);
      LocatedIsLinked(r[j].root, k, x, 0);
      LinkedAt(t, path);
      StaysInPlace(d, r, j, now, k, x);
      RunInv(d, r, now);
      ChildLocated(d, r[now], k, path, x, l);
    }
  }

  /** insert and erase are linearizable too. The search has ended at a leaf, which was read at some
      moment m. An operation that changes nothing (key present and not to be replaced, or key absent) answers
      from that leaf: its answer is the dictionary's at a moment j during the search. One that succeeds at
      the SCX `now` replaces exactly this leaf, which is then the leaf of k, and the old value it returns is
      the dictionary's at that very moment. */
  lemma UpdateLinearizes(d: Degree, r: seq<State>, k: int, v: seq<Visit>, m: nat, path: seq<nat>, now: nat) returns (j: nat)
    requires Run(d, r) && Search(r, k, v)
    requires m < |r| && Valid(r[m].root, path)
    requires Under(r[m].root, path).Leaf? && Under(r[m].root, path).id == v[|v| - 1].id
    ensures var l := Under(r[m].root, path);
            v[0].time <= j <= v[|v| - 1].time < |r| && Lookup(r[j].root, k) == LeafGet(l.keys, l.vals, k)
    ensures var l := Under(r[m].root, path);
            Guard(r, k, v, now) ==>
              && Valid(r[now].root, LeafPath(r[now].root, k)) && Under(r[now].root, LeafPath(r[now].root, k)) == l
              && Lookup(r[now].root, k) == LeafGet(l.keys, l.vals, k)
  {
    j := FindLinearizes(d, r, k, v, m, path);
    if Guard(r, k, v, now) {
      GuardLocates(d, r, k, v, now);
      LeafStays(d, r, k, m, path, now);
      LocatedLeaf(r[now].root, k, v[|v| - 1].id);
      LocateLookup(r[now].root, k, v[|v| - 1].id);
    }
  }

  lemma {:induction false} LocatedLeaf(t: Node, k: int, id: nat)
    requires Locate(t, k, id).Some? && Locate(t, k, id).value.Leaf?
    ensures Valid(t, LeafPath(t, k)) && Under(t, LeafPath(t, k)) == Locate(t, k, id).value
    decreases t
  {
    if t.Internal? {
      var i := ChildIndex(t.keys, k);
      LocatedLeaf(t.kids[i], k, id);
      assert LeafPath(t, k)[1..] == LeafPath(t.kids[i], k);
    }
  }

  // -------------------------------------------------- a fix-up's search for its node

  /** On the search path of k, v lies at or below x. */
  ghost predicate Below(t: Node, k: int, x: nat, v: nat) {
    Locate(t, k, x).Some? && Locate(Locate(t, k, x).value, k, v).Some?
  }

  lemma {:induction false} GraftBelow(t: Node, path: seq<nat>, n: Node, k: int, x: nat, v: nat)
    requires Valid(t, path)
    requires Locate(Under(t, path), k, x) == Locate(n, k, x) && Locate(Under(t, path), k, v) == Locate(n, k, v)
    ensures Below(t, k, x, v) == Below(Graft(t, path, n), k, x, v)
  {
    if path != [] {
      if t.id == x {
        GraftLocate(t, path, n, k, v);
      } else {
        GraftBelow(t.kids[path[0]], path[1..], n, k, x, v);
        BelowKid(t, k, x, v);
        BelowKid(Graft(t, path, n), k, x, v);
        hide Below, Locate;
      }
    }
  }

  lemma BelowKid(t: Node, k: int, x: nat, v: nat)
    requires t.Internal? && t.id != x
    ensures var c := ChildIndex(t.keys, k); Below(t, k, x, v) == (c < |t.kids| && Below(t.kids[c], k, x, v))
  {
  }

  lemma StepLocal(d: Degree, s: State, act: Action, k: int, id: nat)
    requires Inv(d, s) && Enabled(d, s, act) && Linked(s.root, id) && Linked(Next(d, s, act).root, id)
    ensures Locate(Under(s.root, Place(s, act)), k, id) == Locate(Replacement(d, s, act).node, k, id)
  {
    AddressState(d, s, id);
    StepRetires(d, s, act, id);
    if act.Put? || act.Del? {
      UpdateLocate(d, s, act, k, id);
    } else {
      RepairSame(d, s, act, k, id);
    }
  }

  lemma StepBelow(d: Degree, s: State, act: Action, k: int, x: nat, v: nat)
    requires Inv(d, s) && Enabled(d, s, act)
    requires Linked(s.root, x) && Linked(Next(d, s, act).root, x) && Linked(s.root, v) && Linked(Next(d, s, act).root, v)
    ensures Below(s.root, k, x, v) == Below(Next(d, s, act).root, k, x, v)
  {
    hide Inv, Linked, Below, Locate;
    StepLocal(d, s, act, k, x);
    StepLocal(d, s, act, k, v);
    GraftBelow(s.root, Place(s, act), Replacement(d, s, act).node, k, x, v);
  }

  /** The order of two surviving nodes on a search path never changes. */
  lemma {:induction false} StaysBelow(d: Degree, r: seq<State>, i: nat, j: nat, k: int, x: nat, v: nat)
    requires Run(d, r) && i <= j < |r|
    requires Linked(r[i].root, x) && Linked(r[j].root, x) && Linked(r[i].root, v) && Linked(r[j].root, v)
    ensures Below(r[i].root, k, x, v) == Below(r[j].root, k, x, v)
    decreases j
  {
    hide Run, Inv, Enabled, Linked, Below, Locate;
    if i < j {
      LinkedBetween(d, r, i, j - 1, j, x);
      LinkedBetween(d, r, i, j - 1, j, v);
      StaysBelow(d, r, i, j - 1, k, x, v);
      var act := RunStep(d, r, j - 1);
      StepBelow(d, r[j - 1], act, k, x, v);
    }
  }

  lemma LinkedAt(t: Node, path: seq<nat>)
    requires Valid(t, path)
    ensures Linked(t, Under(t, path).id)
  {
    OwnCount(Address(Under(t, path).id), Under(t, path), DepthAt(t, path, 0));
    UnderCount(Address(Under(t, path).id), t, path, 0);
  }

  /** A search for viol's own key cannot pass viol by while viol stays linked. */
  lemma {:induction false} AboveViolation(d: Degree, r: seq<State>, v: seq<Visit>, i: nat, path: seq<nat>) returns (j: nat)
    requires Run(d, r) && v != [] && v[0].time < |r| && Valid(r[v[0].time].root, path)
    requires var viol := Under(r[v[0].time].root, path);
             && Search(r, viol.searchKey, v) && i < |v|
             && v[i].time < |r| && Linked(r[v[i].time].root, viol.id)
             && forall e :: 0 <= e < i ==> v[e].id != viol.id
    ensures v[0].time <= j <= v[i].time < |r|
    ensures var viol := Under(r[v[0].time].root, path); Below(r[j].root, viol.searchKey, v[i].id, viol.id)
  {
    var viol := Under(r[v[0].time].root, path);
    var k := viol.searchKey;
    if i == 0 {
      j := v[0].time;
      RecordAt(d, r, j, path, j);
    } else {
      var x, y := v[i - 1], v[i];
      assert Reads(r, k, x, y);
      TimesGrow(r, k, v, 0, i - 1);
      LinkedAt(r[v[0].time].root, path);
      LinkedBetween(d, r, v[0].time, x.time, y.time, viol.id);
      var m := AboveViolation(d, r, v, i - 1, path);
      var last: nat, p: seq<nat> :| LastSeen(r, x.id, y.time, last) && ChildFor(r[last].root, p, x.id, k, y.id);
      j := last;
      LocatedIsLinked(r[m].root, k, x.id, 0);
      SeenAtOrAfter(d, r, x.id, y.time, m, j);
      StaysInPlace(d, r, m, j, k, x.id);
      LinkedBetween(d, r, v[0].time, m, y.time, viol.id);
      LinkedBetween(d, r, v[0].time, j, y.time, viol.id);
      StaysBelow(d, r, m, j, k, x.id, viol.id);
      RunInv(d, r, j);
      ChildLocated(d, r[j], k, p, x.id, y.id);
    }
  }

  lemma {:induction false} TimesGrow(r: seq<State>, k: int, v: seq<Visit>, i: nat, j: nat)
    requires Search(r, k, v) && i <= j < |v|
    ensures v[i].time <= v[j].time < |r|
    decreases j
  {
    if i < j {
      TimesGrow(r, k, v, i, j - 1);
      assert Reads(r, k, v[j - 1], v[j]);
    } else if 0 < i {
      assert Reads(r, k, v[i - 1], v[i]);
    }
  }

  /** A fix-up whose search ends at a leaf without meeting its node knows that the node
      has been unlinked: responsibility for it has passed to another thread. */
  lemma MissedMeansUnlinked(d: Degree, r: seq<State>, v: seq<Visit>, path: seq<nat>, m: nat, end: seq<nat>)
    requires Run(d, r) && v != [] && v[0].time < |r| && Valid(r[v[0].time].root, path)
    requires var viol := Under(r[v[0].time].root, path);
             Search(r, viol.searchKey, v) && forall e :: 0 <= e < |v| ==> v[e].id != viol.id
    requires m < |r| && Valid(r[m].root, end) && Under(r[m].root, end).Leaf? && Under(r[m].root, end).id == v[|v| - 1].id
    ensures v[|v| - 1].time < |r| && !Linked(r[v[|v| - 1].time].root, Under(r[v[0].time].root, path).id)
  {
    var viol, z := Under(r[v[0].time].root, path), v[|v| - 1];
    TimesGrow(r, viol.searchKey, v, 0, |v| - 1);
    if Linked(r[z.time].root, viol.id) {
      var j := AboveViolation(d, r, v, |v| - 1, path);
      LeafStays(d, r, viol.searchKey, m, end, j);
    }
  }

  /** A leaf is the same record wherever a search finds it. */
  lemma LeafStays(d: Degree, r: seq<State>, k: int, m: nat, path: seq<nat>, j: nat)
    requires Run(d, r) && m < |r| && Valid(r[m].root, path) && Under(r[m].root, path).Leaf?
    requires j < |r| && Locate(r[j].root, k, Under(r[m].root, path).id).Some?
    ensures Locate(r[j].root, k, Under(r[m].root, path).id) == Some(Under(r[m].root, path))
  {
    var n := Under(r[m].root, path);
    LocatedIsLinked(r[j].root, k, n.id, 0);
    RecordAt(d, r, m, path, j);
    RunInv(d, r, j);
    assert Uses(r[j], n.id) == Fresh(0, r[j].next, n.id);
    var x := LocatePath(r[j].root, k, n.id);
    var y := LocatePath(r[j].root, n.searchKey, n.id);
    OnePlace(r[j].root, x, y, 0);
  }
}
