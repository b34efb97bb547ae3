/** A violation that is left to nobody: a run of two threads, DEGREE 3, that ends with
    no call pending and a leaf with too few keys. */
module AbLost {
  import opened AbNodes
  import opened AbPatches
  import opened AbPaths
  import opened AbSearchProofs
  import opened AbSystem
  import opened AbRebalance
  import opened AbMarks
  import opened AbHandOver

  const D: Degree := 3

  ghost predicate Reach(w: Work) {
    exists r :: WorkRun(D, 2, r) && r[|r| - 1] == w
  }

  lemma ReachMove(w: Work, mv: Move)
    requires Reach(w) && Can(D, w, mv)
    ensures Reach(After(D, w, mv)) && HandInv(D, After(D, w, mv))
  {
    hide Can, After, HandInv;
    var r :| WorkRun(D, 2, r) && r[|r| - 1] == w;
    var w' := After(D, w, mv);
    assert Moves(D, w, w');
    var r' := r + [w'];
    forall i | 0 <= i < |r'| - 1 ensures Moves(D, r'[i], r'[i + 1]) {
      if i < |r| - 1 {
        assert Moves(D, r[i], r[i + 1]);
      }
    }
    assert WorkRun(D, 2, r');
    RunHand(D, 2, r', |r|);
  }

  lemma ReachInv(w: Work)
    requires Reach(w)
    ensures HandInv(D, w)
  {
    var r :| WorkRun(D, 2, r) && r[|r| - 1] == w;
    RunHand(D, 2, r, |r| - 1);
  }

  /** A call returns at once: its node is linked, and no violation. */
  lemma Return(w: Work, i: nat, path: seq<nat>)
    requires Reach(w) && i < |w.stacks| && w.stacks[i] != [] && Valid(w.tree.root, path)
    requires var x := Under(w.tree.root, path);
             || (w.stacks[i][0] == DegreeCall(x.id) && (path == [] || x.Size() >= 2))
             || (w.stacks[i][0] == WeightCall(x.id) && x.weight)
    ensures Reach(SetStack(w, i, w.stacks[i][1..]))
  {
    ReachInv(w);
    var t, x := w.tree.root, Under(w.tree.root, path);
    var m := if w.stacks[i][0].WeightCall? then LightNode else SmallNode(MinDegree(D));
    if Has(t, x.id, m) && path != [] {
      var y := MarkedPlace(t, x.id, m, 0);
      Runs.AddressState(D, w.tree, x.id);
      Runs.OnePlace(t, path, y, 0);
    } else if Has(t, x.id, m) && w.stacks[i][0].WeightCall? {
      var y := MarkedPlace(t, x.id, m, 0);
      Runs.AddressState(D, w.tree, x.id);
      Runs.OnePlace(t, path, y, 0);
    }
    assert Can(D, w, Drop(i));
    ReachMove(w, Drop(i));
  }

  // ------------------------------------------------------------ updates at a leaf

  /** The leaf of k, with smaller keys only. */
  ghost predicate LastLeaf(s: State, path: seq<nat>, k: int) {
    && Valid(s.root, path) && path == LeafPath(s.root, k) && IsLeaf(Under(s.root, path)) && Under(s.root, path).weight
    && forall j :: 0 <= j < |Under(s.root, path).keys| ==> Under(s.root, path).keys[j] < k
  }

  lemma Grow(s: State, path: seq<nat>, k: int)
    requires LastLeaf(s, path, k) && |Under(s.root, path).keys| < 3
    ensures Enabled(D, s, Put(k, 0))
    ensures var l := Under(s.root, path);
            && Next(D, s, Put(k, 0)) ==
               State(Graft(s.root, path, Leaf(s.next, true, l.searchKey, l.keys + [k], l.vals + [0])), s.next + 1, s.retired + [l.id])
            && Calls(D, s, Put(k, 0)) == [DegreeCall(s.next)]
  {
    var l := Under(s.root, path);
    KeyAtEnd(l.keys, k);
    assert InsertAt(l.keys, |l.keys|, k) == l.keys + [k] && InsertAt(l.vals, |l.keys|, 0) == l.vals + [0];
  }

  lemma Burst(s: State, path: seq<nat>, k: int)
    requires LastLeaf(s, path, k) && |Under(s.root, path).keys| == 3
    ensures Enabled(D, s, Put(k, 0))
    ensures var l := Under(s.root, path);
            var x := Leaf(s.next, true, l.keys[0], l.keys[..2], l.vals[..2]);
            var y := Leaf(s.next + 1, true, l.keys[2], [l.keys[2], k], [l.vals[2], 0]);
            && Next(D, s, Put(k, 0)) ==
               State(Graft(s.root, path, Internal(s.next + 2, path == [], l.keys[2], [l.keys[2]], [x, y])), s.next + 3, s.retired + [l.id])
            && Calls(D, s, Put(k, 0)) == [WeightCall(s.next + 2)]
  {
    var l := Under(s.root, path);
    KeyAtEnd(l.keys, k);
    var t := Inserted(l, k, 0, s.next);
    assert t.keys == l.keys + [k] && t.vals == l.vals + [0];
    assert t.keys[..2] == l.keys[..2] && t.keys[2..] == [l.keys[2], k];
    assert t.vals[..2] == l.vals[..2] && t.vals[2..] == [l.vals[2], 0];
  }

  lemma Shrink(s: State, path: seq<nat>, k: int)
    requires Valid(s.root, path) && path == LeafPath(s.root, k) && IsLeaf(Under(s.root, path))
    requires 1 <= |Under(s.root, path).keys| <= 3 && Under(s.root, path).keys[0] == k
    ensures Enabled(D, s, Del(k))
    ensures var l := Under(s.root, path);
            && Next(D, s, Del(k)) ==
               State(Graft(s.root, path, Leaf(s.next, true, k, l.keys[1..], l.vals[1..])), s.next + 1, s.retired + [l.id])
            && Calls(D, s, Del(k)) == [DegreeCall(s.next)]
  {
    var l := Under(s.root, path);
    assert KeyIndex(l.keys, k) == 0;
    assert RemoveAt(l.keys, 0) == l.keys[1..] && RemoveAt(l.vals, 0) == l.vals[1..];
  }

  // ------------------------------------------------------------------ the states

  /** Thread 0 has the calls `mine` to make, thread 1 the calls `other`. */
  function W(s: State, mine: seq<Task>, other: seq<Task>, lost: set<nat>): Work {
    Work(s, [mine, other], lost)
  }

  /** Thread 0 updates or repairs. */
  lemma Mine(s: State, mine: seq<Task>, other: seq<Task>, lost: set<nat>, mv: Move, s': State, mine': seq<Task>)
    requires Reach(W(s, mine, other, lost)) && (mv.Update? || mv.Fix?) && mv.i == 0 && Can(D, W(s, mine, other, lost), mv)
    requires s' == Next(D, s, mv.act)
    requires mine' == Calls(D, s, mv.act) + if mv.Fix? then mine[1..] else []
    ensures Reach(W(s', mine', other, lost))
  {
    hide Can, Next, Calls, Reach, HandInv, Enabled;
    var w := W(s, mine, other, lost);
    ReachMove(w, mv);
    TreeEnabled(w, mv);
    AfterTree(w, mv);
    assert w.stacks[0 := mine'] == [mine', other];
  }

  /** Thread 1 updates. */
  lemma Other(s: State, mine: seq<Task>, lost: set<nat>, act: Action, s': State, other': seq<Task>)
    requires Reach(W(s, mine, [], lost)) && Can(D, W(s, mine, [], lost), Update(1, act))
    requires s' == Next(D, s, act) && other' == Calls(D, s, act)
    ensures Reach(W(s', mine, other', lost))
  {
    hide Can, Next, Calls, Reach, HandInv, Enabled;
    var w, mv := W(s, mine, [], lost), Update(1, act);
    ReachMove(w, mv);
    TreeEnabled(w, mv);
    AfterTree(w, mv);
    assert w.stacks[1 := other'] == [mine, other'];
  }

  lemma TreeEnabled(w: Work, mv: Move)
    requires Can(D, w, mv) && (mv.Update? || mv.Fix?)
    ensures Enabled(D, w.tree, mv.act) && mv.i < |w.stacks| && (mv.Fix? ==> w.stacks[mv.i] != [])
  {
  }

  lemma AfterTree(w: Work, mv: Move)
    requires Can(D, w, mv) && (mv.Update? || mv.Fix?) && Enabled(D, w.tree, mv.act)
    requires mv.Fix? ==> w.stacks[mv.i] != []
    ensures var calls := Calls(D, w.tree, mv.act) + if mv.Fix? then w.stacks[mv.i][1..] else [];
            After(D, w, mv) == Work(Next(D, w.tree, mv.act), w.stacks[mv.i := calls], w.abandoned)
  {
    hide Next, Calls, Enabled;
    assert mv.Update? ==> Calls(D, w.tree, mv.act) + [] == Calls(D, w.tree, mv.act);
  }

  /** The first call of thread 0 returns at once. */
  lemma MineReturns(s: State, mine: seq<Task>, rest: seq<Task>, other: seq<Task>, lost: set<nat>, path: seq<nat>)
    requires Reach(W(s, mine, other, lost)) && Valid(s.root, path) && mine != [] && rest == mine[1..]
    requires var x := Under(s.root, path);
             || (mine[0] == DegreeCall(x.id) && (path == [] || x.Size() >= 2))
             || (mine[0] == WeightCall(x.id) && x.weight)
    ensures Reach(W(s, rest, other, lost))
  {
    hide Reach;
    var w := W(s, mine, other, lost);
    Return(w, 0, path);
    assert w.stacks[0 := rest] == [rest, other];
  }

  lemma OtherReturns(s: State, task: Task, mine: seq<Task>, lost: set<nat>, path: seq<nat>)
    requires Reach(W(s, mine, [task], lost)) && Valid(s.root, path)
    requires task == DegreeCall(Under(s.root, path).id) && (path == [] || Under(s.root, path).Size() >= 2)
    ensures Reach(W(s, mine, [], lost))
  {
    hide Reach;
    var w := W(s, mine, [task], lost);
    Return(w, 1, path);
    assert w.stacks[1][1..] == [] && w.stacks[1 := []] == [mine, []];
  }

  /** s' is s with n at the end of `path`, `used` addresses later, and these retired. */
  ghost predicate Swung(s: State, path: seq<nat>, n: Node, used: nat, ids: seq<nat>, s': State)
    requires Valid(s.root, path)
  {
    s'.root == Graft(s.root, path, n) && s'.next == s.next + used && s'.retired == s.retired + ids
  }

  /** An insertion by thread 0 into a leaf with room, with the call for the new leaf. */
  lemma Add(s: State, path: seq<nat>, k: int, s': State)
    requires Reach(W(s, [], [], {})) && LastLeaf(s, path, k) && |Under(s.root, path).keys| < 3
    requires path == [] || |Under(s.root, path).keys| >= 1
    requires var l := Under(s.root, path);
             Swung(s, path, Leaf(s.next, true, l.searchKey, l.keys + [k], l.vals + [0]), 1, [l.id], s')
    ensures Reach(W(s', [], [], {}))
  {
    hide Reach, Next, Calls;
    var l := Under(s.root, path);
    Grow(s, path, k);
    Driver.Grafted(s.root, path, Leaf(s.next, true, l.searchKey, l.keys + [k], l.vals + [0]));
    Mine(s, [], [], {}, Update(0, Put(k, 0)), s', [DegreeCall(s.next)]);
    MineReturns(s', [DegreeCall(s.next)], [], [], {}, path);
  }

  /** An insertion by thread 0 into a full leaf. */
  lemma Overflow(s: State, path: seq<nat>, k: int, s': State)
    requires Reach(W(s, [], [], {})) && LastLeaf(s, path, k) && |Under(s.root, path).keys| == 3
    requires var l := Under(s.root, path);
             var x := Leaf(s.next, true, l.keys[0], l.keys[..2], l.vals[..2]);
             var y := Leaf(s.next + 1, true, l.keys[2], [l.keys[2], k], [l.vals[2], 0]);
             Swung(s, path, Internal(s.next + 2, path == [], l.keys[2], [l.keys[2]], [x, y]), 3, [l.id], s')
    ensures Reach(W(s', [WeightCall(s.next + 2)], [], {}))
  {
    hide Reach, Next, Calls;
    Burst(s, path, k);
    Mine(s, [], [], {}, Update(0, Put(k, 0)), s', [WeightCall(s.next + 2)]);
  }

  // -------------------------------------------------------------------- the run

  function L1(id: nat, searchKey: int, x: int): Node {
    Leaf(id, true, searchKey, [x], [0])
  }

  function L2(id: nat, searchKey: int, x: int, y: int): Node {
    Leaf(id, true, searchKey, [x, y], [0, 0])
  }

  function L3(id: nat, searchKey: int, x: int, y: int, z: int): Node {
    Leaf(id, true, searchKey, [x, y, z], [0, 0, 0])
  }

  function Two(id: nat, weight: bool, key: int, x: Node, y: Node): Node {
    Internal(id, weight, key, [key], [x, y])
  }

  function Three(id: nat, key: int, key': int, x: Node, y: Node, z: Node): Node {
    Internal(id, true, key, [key, key'], [x, y, z])
  }

  lemma Begin()
    ensures Reach(W(Initial(0), [], [], {}))
  {
    var w := W(Initial(0), [], [], {});
    assert Start(2, 0).stacks == [[], []];
    assert WorkRun(D, 2, [w]) by {
      assert w == Start(2, 0);
    }
  }

  // After keys 1 to 4; 6; 6 with the overflow absorbed; 8; 8 with the overflow split off.
  function S4(): State {
    State(Two(6, true, 3, L2(4, 1, 1, 2), L2(5, 3, 3, 4)), 7, [0, 1, 2, 3])
  }

  function S6(): State {
    State(Two(6, true, 3, L2(4, 1, 1, 2), Two(10, false, 5, L2(8, 3, 3, 4), L2(9, 5, 5, 6))), 11, [0, 1, 2, 3, 5, 7])
  }

  function S6'(): State {
    State(Three(11, 3, 5, L2(4, 1, 1, 2), L2(8, 3, 3, 4), L2(9, 5, 5, 6)), 12, [0, 1, 2, 3, 5, 7, 6, 10])
  }

  function S8(): State {
    State(Three(11, 3, 5, L2(4, 1, 1, 2), L2(8, 3, 3, 4), Two(15, false, 7, L2(13, 5, 5, 6), L2(14, 7, 7, 8))), 16,
          [0, 1, 2, 3, 5, 7, 6, 10, 9, 12])
  }

  function Right(): Node {
    Two(17, true, 7, L2(13, 5, 5, 6), L2(14, 7, 7, 8))
  }

  function S8'(): State {
    State(Two(18, true, 5, Two(16, true, 3, L2(4, 1, 1, 2), L2(8, 3, 3, 4)), Right()), 19,
          [0, 1, 2, 3, 5, 7, 6, 10, 9, 12, 11, 15])
  }

  // Key 1 deleted by thread 0; its leaf joined with its sibling under a parent that now has one child.
  function S9(): State {
    State(Two(18, true, 5, Two(16, true, 3, L1(19, 1, 2), L2(8, 3, 3, 4)), Right()), 20,
          [0, 1, 2, 3, 5, 7, 6, 10, 9, 12, 11, 15, 4])
  }

  function Single(x: Node): Node {
    Internal(21, true, 3, [], [x])
  }

  function S9'(): State {
    State(Two(18, true, 5, Single(L3(20, 1, 2, 3, 4)), Right()), 22,
          [0, 1, 2, 3, 5, 7, 6, 10, 9, 12, 11, 15, 4, 16, 19, 8])
  }

  // Keys 2 and 3 deleted by thread 1; the single parent joined with its sibling by thread 0.
  function S10(): State {
    State(Two(18, true, 5, Single(L2(22, 2, 3, 4)), Right()), 23,
          [0, 1, 2, 3, 5, 7, 6, 10, 9, 12, 11, 15, 4, 16, 19, 8, 20])
  }

  function S11(): State {
    State(Two(18, true, 5, Single(L1(23, 3, 4)), Right()), 24,
          [0, 1, 2, 3, 5, 7, 6, 10, 9, 12, 11, 15, 4, 16, 19, 8, 20, 22])
  }

  function S11'(): State {
    State(Internal(24, true, 3, [5, 7], [L1(23, 3, 4), L2(13, 5, 5, 6), L2(14, 7, 7, 8)]), 25,
          [0, 1, 2, 3, 5, 7, 6, 10, 9, 12, 11, 15, 4, 16, 19, 8, 20, 22, 18, 21, 17])
  }

  function S3(): State {
    State(L3(3, 0, 1, 2, 3), 4, [0, 1, 2])
  }

  /** A leaf that is the root. */
  lemma AddAtTop(s: State, k: int, s': State)
    requires Reach(W(s, [], [], {})) && IsLeaf(s.root) && s.root.weight && |s.root.keys| < 3
    requires forall j :: 0 <= j < |s.root.keys| ==> s.root.keys[j] < k
    requires s'.root == Leaf(s.next, true, s.root.searchKey, s.root.keys + [k], s.root.vals + [0])
    requires s'.next == s.next + 1 && s'.retired == s.retired + [s.root.id]
    ensures Reach(W(s', [], [], {}))
  {
    hide Reach, ChildIndex, KeyIndex;
    Add(s, [], k, s');
  }

  lemma UpToThree()
    ensures Reach(W(S3(), [], [], {}))
  {
    hide Reach;
    Begin();
    var s1, s2 := State(L1(1, 0, 1), 2, [0]), State(L2(2, 0, 1, 2), 3, [0, 1]);
    AddAtTop(Initial(0), 1, s1);
    AddAtTop(s1, 2, s2);
    AddAtTop(s2, 3, S3());
  }

  lemma Four()
    ensures Reach(W(S4(), [], [], {}))
  {
    hide Reach, ChildIndex, KeyIndex;
    UpToThree();
    assert [1, 2, 3][..2] == [1, 2] && [0, 0, 0][..2] == [0, 0];
    Overflow(S3(), [], 4, S4());
    MineReturns(S4(), [WeightCall(6)], [], [], {}, []);
  }

  function S5(): State {
    State(Two(6, true, 3, L2(4, 1, 1, 2), L3(7, 3, 3, 4, 5)), 8, [0, 1, 2, 3, 5])
  }

  function S7(): State {
    State(Three(11, 3, 5, L2(4, 1, 1, 2), L2(8, 3, 3, 4), L3(12, 5, 5, 6, 7)), 13, [0, 1, 2, 3, 5, 7, 6, 10, 9])
  }

  lemma AddFive()
    requires Reach(W(S4(), [], [], {}))
    ensures Reach(W(S5(), [], [], {}))
  {
    hide Reach, Graft, Valid, Under, LeafPath;
    ChildIndexUnique([3], 5, 1);
    OneDown(S4().root, 1, L3(7, 3, 3, 4, 5));
    assert S4().root.kids[1 := L3(7, 3, 3, 4, 5)] == S5().root.kids;
    assert [3, 4] + [5] == [3, 4, 5] && [0, 0] + [0] == [0, 0, 0];
    Add(S4(), [1], 5, S5());
  }

  lemma OverflowSix()
    requires Reach(W(S5(), [], [], {}))
    ensures Reach(W(S6(), [WeightCall(10)], [], {}))
  {
    hide Reach, Graft, Valid, Under, LeafPath;
    ChildIndexUnique([3], 6, 1);
    OneDown(S5().root, 1, S6().root.kids[1]);
    assert S5().root.kids[1 := S6().root.kids[1]] == S6().root.kids;
    assert [3, 4, 5][..2] == [3, 4] && [0, 0, 0][..2] == [0, 0];
    Overflow(S5(), [1], 6, S6());
  }

  lemma AddSeven()
    requires Reach(W(S6'(), [], [], {}))
    ensures Reach(W(S7(), [], [], {}))
  {
    hide Reach, Graft, Valid, Under, LeafPath;
    ChildIndexUnique([3, 5], 7, 2);
    OneDown(S6'().root, 2, L3(12, 5, 5, 6, 7));
    assert S6'().root.kids[2 := L3(12, 5, 5, 6, 7)] == S7().root.kids;
    assert [5, 6] + [7] == [5, 6, 7] && [0, 0] + [0] == [0, 0, 0];
    Add(S6'(), [2], 7, S7());
  }

  lemma OverflowEight()
    requires Reach(W(S7(), [], [], {}))
    ensures Reach(W(S8(), [WeightCall(15)], [], {}))
  {
    hide Reach, Graft, Valid, Under, LeafPath;
    ChildIndexUnique([3, 5], 8, 2);
    OneDown(S7().root, 2, S8().root.kids[2]);
    assert S7().root.kids[2 := S8().root.kids[2]] == S8().root.kids;
    assert [5, 6, 7][..2] == [5, 6] && [0, 0, 0][..2] == [0, 0];
    Overflow(S7(), [2], 8, S8());
  }

  lemma AbsorbStep()
    ensures Enabled(D, S6(), FixWeight([], 1)) && Next(D, S6(), FixWeight([], 1)) == S6'()
    ensures Calls(D, S6(), FixWeight([], 1)) == [DegreeCall(11)]
  {
    var p := S6().root;
    assert p.keys[..1] + p.kids[1].keys + p.keys[1..] == [3, 5];
    assert p.kids[..1] + p.kids[1].kids + p.kids[2..] == S6'().root.kids;
    assert S6().retired + [6, 10] == S6'().retired;
  }

  lemma Six()
    ensures Reach(W(S6'(), [], [], {}))
  {
    hide Reach;
    Four();
    AddFive();
    OverflowSix();
    AbsorbStep();
    Mine(S6(), [WeightCall(10)], [], {}, Fix(0, FixWeight([], 1)), S6'(), [DegreeCall(11)]);
    MineReturns(S6'(), [DegreeCall(11)], [], [], {}, []);
  }

  lemma SplitStep()
    ensures Enabled(D, S8(), FixWeight([], 2)) && Next(D, S8(), FixWeight([], 2)) == S8'()
    ensures Calls(D, S8(), FixWeight([], 2)) == [WeightCall(18), DegreeCall(18)]
  {
    var p := S8().root;
    assert p.keys[..2] + p.kids[2].keys + p.keys[2..] == [3, 5, 7];
    assert p.kids[..2] + p.kids[2].kids + p.kids[3..] == [L2(4, 1, 1, 2), L2(8, 3, 3, 4), L2(13, 5, 5, 6), L2(14, 7, 7, 8)];
    var t := Merged(p, 2, 16);
    assert t.keys[..1] == [3] && t.keys[2..] == [7];
    assert t.kids[..2] == [L2(4, 1, 1, 2), L2(8, 3, 3, 4)] && t.kids[2..] == [L2(13, 5, 5, 6), L2(14, 7, 7, 8)];
    assert S8().retired + [11, 15] == S8'().retired;
  }

  lemma Eight()
    ensures Reach(W(S8'(), [], [], {}))
  {
    hide Reach;
    Six();
    AddSeven();
    OverflowEight();
    SplitStep();
    Mine(S8(), [WeightCall(15)], [], {}, Fix(0, FixWeight([], 2)), S8'(), [WeightCall(18), DegreeCall(18)]);
    MineReturns(S8'(), [WeightCall(18), DegreeCall(18)], [DegreeCall(18)], [], {}, []);
    MineReturns(S8'(), [DegreeCall(18)], [], [], {}, []);
  }

  // --------------------------------------------------------- the two deletions

  lemma DeleteOne()
    requires Reach(W(S8'(), [], [], {}))
    ensures Reach(W(S9(), [DegreeCall(19)], [], {}))
  {
    hide Reach, Graft, Valid, Under, LeafPath;
    var t := S8'().root;
    ChildIndexUnique([5], 1, 0);
    ChildIndexUnique([3], 1, 0);
    TwoDown(t, 0, 0, L1(19, 1, 2));
    assert t.kids[0].kids[0 := L1(19, 1, 2)] == S9().root.kids[0].kids;
    assert t.kids[0 := S9().root.kids[0]] == S9().root.kids;
    assert [1, 2][1..] == [2] && [0, 0][1..] == [0];
    Shrink(S8'(), [0, 0], 1);
    Mine(S8'(), [], [], {}, Update(0, Del(1)), S9(), [DegreeCall(19)]);
  }

  /** The two leaves become one, under a parent with no other child. */
  lemma AloneStep()
    ensures Enabled(D, S9(), FixDegree([0], 0)) && Next(D, S9(), FixDegree([0], 0)) == S9'()
    ensures Calls(D, S9(), FixDegree([0], 0)) == [DegreeCall(20), DegreeCall(21)]
    ensures Under(S9().root, [0]).kids[0].id == 19
  {
    var t := S9().root;
    var p := t.kids[0];
    OneDown(t, 0, S9'().root.kids[0]);
    assert Joined(p, 0, 20, 1) == L3(20, 1, 2, 3, 4);
    assert p.keys[..0] + p.keys[1..] == [] && p.kids[..0] + [L3(20, 1, 2, 3, 4)] + p.kids[2..] == [L3(20, 1, 2, 3, 4)];
    assert t.kids[0 := S9'().root.kids[0]] == S9'().root.kids;
    assert S9().retired + [16, 19, 8] == S9'().retired;
  }

  /** Thread 0 has still to look at the parent; thread 1 deletes two keys below it. */
  lemma Deleted()
    ensures Reach(W(S9'(), [DegreeCall(21)], [], {}))
  {
    hide Reach, Next, Calls, Enabled;
    Eight();
    DeleteOne();
    AloneStep();
    Mine(S9(), [DegreeCall(19)], [], {}, Fix(0, FixDegree([0], 0)), S9'(), [DegreeCall(20), DegreeCall(21)]);
    TwoDown(S9'().root, 0, 0, L1(20, 0, 0));
    MineReturns(S9'(), [DegreeCall(20), DegreeCall(21)], [DegreeCall(21)], [], {}, [0, 0]);
  }

  lemma DeleteTwo()
    requires Reach(W(S9'(), [DegreeCall(21)], [], {}))
    ensures Reach(W(S10(), [DegreeCall(21)], [], {}))
  {
    hide Reach, Graft, Valid, Under, LeafPath;
    var t := S9'().root;
    ChildIndexUnique([5], 2, 0);
    TwoDown(t, 0, 0, L2(22, 2, 3, 4));
    assert t.kids[0].kids[0 := L2(22, 2, 3, 4)] == S10().root.kids[0].kids;
    assert t.kids[0 := S10().root.kids[0]] == S10().root.kids;
    assert [2, 3, 4][1..] == [3, 4] && [0, 0, 0][1..] == [0, 0];
    Shrink(S9'(), [0, 0], 2);
    Other(S9'(), [DegreeCall(21)], {}, Del(2), S10(), [DegreeCall(22)]);
    TwoDown(S10().root, 0, 0, t);
    OtherReturns(S10(), DegreeCall(22), [DegreeCall(21)], {}, [0, 0]);
  }

  lemma DeleteThree()
    requires Reach(W(S10(), [DegreeCall(21)], [], {}))
    ensures Reach(W(S11(), [DegreeCall(21)], [DegreeCall(23)], {}))
  {
    hide Reach, Graft, Valid, Under, LeafPath;
    var t := S10().root;
    ChildIndexUnique([5], 3, 0);
    TwoDown(t, 0, 0, L1(23, 3, 4));
    assert t.kids[0].kids[0 := L1(23, 3, 4)] == S11().root.kids[0].kids;
    assert t.kids[0 := S11().root.kids[0]] == S11().root.kids;
    assert [3, 4][1..] == [4] && [0, 0][1..] == [0];
    Shrink(S10(), [0, 0], 3);
    Other(S10(), [DegreeCall(21)], {}, Del(3), S11(), [DegreeCall(23)]);
  }

  /** Thread 1 finds its leaf alone under the parent, and returns. */
  lemma Abandons()
    requires Reach(W(S11(), [DegreeCall(21)], [DegreeCall(23)], {}))
    ensures Reach(W(S11(), [DegreeCall(21)], [], {23}))
  {
    hide Reach;
    var w := W(S11(), [DegreeCall(21)], [DegreeCall(23)], {});
    OneDown(S11().root, 0, S11().root);
    var mv := GiveUp(1, [0], 0);
    assert Can(D, w, mv);
    ReachMove(w, mv);
    assert After(D, w, mv) == W(S11(), [DegreeCall(21)], [], {23}) by {
      assert w.stacks[1][1..] == [] && Helpers(Under(S11().root, [0]), 0, true) == [];
      assert w.stacks[1 := []] == [[DegreeCall(21)], []] && {} + {23} == {23};
    }
  }

  /** The parent is joined with its sibling, into a new root. */
  lemma RootStep()
    ensures Enabled(D, S11(), FixDegree([], 0)) && Next(D, S11(), FixDegree([], 0)) == S11'()
    ensures Calls(D, S11(), FixDegree([], 0)) == [DegreeCall(24)]
  {
    var p := S11().root;
    assert p.kids[0].keys + [p.keys[0]] + p.kids[1].keys == [5, 7];
    assert p.kids[0].kids + p.kids[1].kids == S11'().root.kids;
    assert S11().retired + [18, 21, 17] == S11'().retired;
  }

  lemma AllDone()
    ensures Reach(W(S11'(), [], [], {23}))
  {
    hide Reach, Next, Calls, Enabled;
    Deleted();
    DeleteTwo();
    DeleteThree();
    Abandons();
    RootStep();
    Mine(S11(), [DegreeCall(21)], [], {23}, Fix(0, FixDegree([], 0)), S11'(), [DegreeCall(24)]);
    MineReturns(S11'(), [DegreeCall(24)], [], [], {23}, []);
  }

  /** Two threads, three deletions after eight insertions: no call is pending, and the leaf of key 4
      has one key where two are needed. */
  lemma LeftToNobody()
    ensures Reach(W(S11'(), [], [], {23})) && Quiet(W(S11'(), [], [], {23}))
    ensures !Strict(D, S11'().root) && LeftOver(D, W(S11'(), [], [], {23}), 23)
  {
    hide Reach, HandInv, Strict, Has;
    AllDone();
    var w := W(S11'(), [], [], {23});
    OneDown(S11'().root, 0, S11().root);
    MarkedAt(S11'().root, [0], ThinNode(2));
    ReachInv(w);
    QuietStrict(D, w);
    assert LeftOver(D, w, 23);
  }
}
