/** How many children the parent has when a degree repair begins: at least two, and at
    least a of them in every reachable state just when DEGREE is below 12. */
module AbParent {
  import opened AbNodes
  import opened AbPatches
  import opened AbPaths
  import opened AbSearchProofs
  import opened AbSystem
  import Runs = AbRuns

  /** Some run ends with this tree. */
  ghost predicate Reaches(d: Degree, s: State) {
    exists r :: Runs.Run(d, r) && r[|r| - 1] == s
  }

  lemma ReachesOn(d: Degree, s: State, act: Action)
    requires Reaches(d, s) && Enabled(d, s, act)
    ensures Reaches(d, Next(d, s, act)) && Inv(d, Next(d, s, act))
  {
    hide Enabled, Next, Inv;
    var r :| Runs.Run(d, r) && r[|r| - 1] == s;
    var s' := Next(d, s, act);
    assert Runs.Steps(d, s, s');
    var r' := r + [s'];
    forall i | 0 <= i < |r'| - 1 ensures Runs.Steps(d, r'[i], r'[i + 1]) {
      if i < |r| - 1 {
        assert Runs.Steps(d, r[i], r[i + 1]);
      }
    }
    assert Runs.Run(d, r');
    Runs.RunInv(d, r', |r|);
  }

  /** The root is a leaf with n keys below n. */
  ghost predicate OneLeaf(t: Node, n: nat) {
    IsLeaf(t) && t.weight && |t.keys| == n && forall j :: 0 <= j < n ==> t.keys[j] < n
  }

  lemma {:induction false} Filled(d: Degree, n: nat) returns (s: State)
    requires n <= d
    ensures Reaches(d, s) && OneLeaf(s.root, n)
  {
    hide Reaches, Inv;
    if n == 0 {
      s := Initial(0);
      Begins(d);
    } else {
      var s0 := Filled(d, n - 1);
      KeyAtEnd(s0.root.keys, n - 1);
      ReachesOn(d, s0, Put(n - 1, 0));
      s := Next(d, s0, Put(n - 1, 0));
    }
  }

  lemma Begins(d: Degree)
    ensures Reaches(d, Initial(0))
  {
    assert Runs.Run(d, [Initial(0)]);
  }

  /** The root has two leaves, the first of them with n keys. */
  ghost predicate TwoLeaves(d: Degree, t: Node, n: nat) {
    && IsInternal(t) && t.weight && |t.kids| == 2
    && IsLeaf(t.kids[0]) && t.kids[0].weight && |t.kids[0].keys| == n <= d
    && IsLeaf(t.kids[1]) && t.kids[1].weight && |t.kids[1].keys| <= d
    && forall j :: 0 <= j < n ==> t.kids[0].keys[j] < t.keys[0]
  }

  lemma Forked(d: Degree) returns (s: State)
    ensures Reaches(d, s) && TwoLeaves(d, s.root, (d + 1) / 2)
  {
    hide Reaches, Inv;
    var s0 := Filled(d, d);
    KeyAtEnd(s0.root.keys, d);
    ReachesOn(d, s0, Put(d, 0));
    s := Next(d, s0, Put(d, 0));
    LeftIsBelow(d, s);
  }

  lemma LeftIsBelow(d: Degree, s: State)
    requires Inv(d, s) && IsInternal(s.root) && |s.root.kids| == 2 && IsLeaf(s.root.kids[0])
    ensures forall j :: 0 <= j < |s.root.kids[0].keys| ==> s.root.kids[0].keys[j] < s.root.keys[0]
  {
    OneDown(s.root, 0, s.root);
    UnderWf(d, s.root, [0], Top(s.root));
    var path: seq<nat> := [0];
    var sp := Slot(s.root.keys, Top(s.root).(h := Top(s.root).h - s.root.W()), 0);
    assert path[0] == 0 && path[1..] == [];
    assert SpanAt(s.root.kids[0], path[1..], sp) == sp;
    assert SpanAt(s.root, path, Top(s.root)) == sp;
    assert forall j :: 0 <= j < |s.root.kids[0].keys| ==> sp.Has(s.root.kids[0].keys[j]);
  }

  /** One key of the first leaf is deleted, its repair still to come. */
  lemma Fewer(d: Degree, s0: State, n: nat) returns (s: State)
    requires Reaches(d, s0) && TwoLeaves(d, s0.root, n) && n > 0
    ensures Reaches(d, s) && TwoLeaves(d, s.root, n - 1)
  {
    hide Reaches, Inv;
    var t := s0.root;
    var l := t.kids[0];
    var k := l.keys[0];
    ChildIndexUnique(t.keys, k, 0);
    OneDown(t, 0, DelPatch(l, k, s0.next).node);
    assert KeyIndex(l.keys, k) == 0 && LeafPath(t, k) == [0];
    assert RemoveAt(l.keys, 0) == l.keys[1..];
    ReachesOn(d, s0, Del(k));
    s := Next(d, s0, Del(k));
  }

  lemma {:induction false} FewerStill(d: Degree, n: nat) returns (s: State)
    requires n <= (d + 1) / 2
    ensures Reaches(d, s) && TwoLeaves(d, s.root, n)
    decreases (d + 1) / 2 - n
  {
    if n == (d + 1) / 2 {
      s := Forked(d);
    } else {
      var s0 := FewerStill(d, n + 1);
      s := Fewer(d, s0, n + 1);
    }
  }

  /** A degree repair always finds at least two children at the parent, and that is all it needs. */
  ghost predicate ParentsLarge(d: Degree) {
    forall s, path, ix :: Reaches(d, s) && Enabled(d, s, FixDegree(path, ix)) ==>
      |Under(s.root, path).kids| >= MinDegree(d)
  }

  /** p->size >= a holds at every degree repair if and only if DEGREE is less than 12, that is a == 2. For
      larger DEGREE the parent may be a root with two children. */
  lemma ParentSize(d: Degree)
    ensures ParentsLarge(d) <==> d < 12
  {
    if d >= 12 {
      var a := MinDegree(d);
      var s := FewerStill(d, a - 1);
      assert Enabled(d, s, FixDegree([], 0));
      assert |Under(s.root, []).kids| == 2 < a;
    }
  }
}
