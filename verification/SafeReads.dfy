/** The tree and the reclaimer together: threads search and update the tree inside
    operations, hand unlinked nodes to the reclaimer, and never touch a freed one. */
module SafeReads {
  import opened AbNodes
  import Tree = AbSystem
  import Runs = AbRuns
  import Paths = AbPaths
  import Ring = RingSystem
  import Proofs = RingProofs

  /** The reclaimer, how many pointer swings the tree has seen, and the names under which
      unlinked addresses were retired. */
  datatype Both = Both(ring: Ring.State, swings: nat, names: map<nat, nat>)

  /** Either the tree takes its next step, or the reclaimer takes one; a thread retires only
      what the tree has unlinked, each address once. */
  ghost predicate Steps(r: seq<Tree.State>, s: Both, s': Both) {
    || s' == s.(swings := s.swings + 1)
    || (exists act :: Ring.Enabled(s.ring, act) && !act.Retire? && s' == s.(ring := Ring.Next(s.ring, act)))
    || (exists i, closes, id :: Retires(r, s, s', i, closes, id))
  }

  ghost predicate Retires(r: seq<Tree.State>, s: Both, s': Both, i: nat, closes: bool, id: nat) {
    && s.swings < |r| && id in r[s.swings].retired && id !in s.names
    && Ring.Enabled(s.ring, Ring.Retire(i, closes))
    && s' == Both(Ring.Next(s.ring, Ring.Retire(i, closes)), s.swings, s.names[id := s.ring.clock])
  }

  /** A run of n threads over the run r of the tree. */
  ghost predicate Run(d: Degree, n: nat, r: seq<Tree.State>, b: seq<Both>) {
    && Runs.Run(d, r) && n > 0 && b != [] && b[0] == Both(Ring.Initial(n), 0, map[])
    && (forall m :: 0 <= m < |b| ==> b[m].swings < |r|)
    && forall m :: 0 <= m < |b| - 1 ==> Steps(r, b[m], b[m + 1])
  }

  ghost predicate NamesOk(r: seq<Tree.State>, s: Both) {
    s.swings < |r| && forall id :: id in s.names ==> id in r[s.swings].retired && s.names[id] < s.ring.clock
  }

  /** Neither protocol waits for the other: the tree may always go on, the ring may take any step that is not
      a retirement, and any thread outside startOp may retire any node that was unlinked and not yet retired. */
  lemma Independent(r: seq<Tree.State>, s: Both, act: Ring.Action, i: nat, closes: bool, id: nat)
    ensures Steps(r, s, s.(swings := s.swings + 1))
    ensures Ring.Enabled(s.ring, act) && !act.Retire? ==> Steps(r, s, s.(ring := Ring.Next(s.ring, act)))
    ensures s.swings < |r| && id in r[s.swings].retired && id !in s.names && i < |s.ring.threads| && s.ring.threads[i].phase.Idle? ==>
              exists s' :: Steps(r, s, s') && s'.names == s.names[id := s.ring.clock] && s'.ring == Ring.Next(s.ring, Ring.Retire(i, closes))
  {
    if s.swings < |r| && id in r[s.swings].retired && id !in s.names && i < |s.ring.threads| && s.ring.threads[i].phase.Idle? {
      var s' := Both(Ring.Next(s.ring, Ring.Retire(i, closes)), s.swings, s.names[id := s.ring.clock]);
      assert Retires(r, s, s', i, closes, id);
    }
  }

  lemma RetiredGrows(d: Degree, r: seq<Tree.State>, i: nat)
    requires Runs.Run(d, r) && i + 1 < |r|
    ensures r[i].retired <= r[i + 1].retired
  {
    var act := Runs.RunStep(d, r, i);
  }

  /** One step: the ring stays well, names are given once, to retired addresses, and never lie back. */
  lemma StepOk(d: Degree, r: seq<Tree.State>, s: Both, s': Both)
    requires Runs.Run(d, r) && Ring.Inv(s.ring) && NamesOk(r, s) && Steps(r, s, s') && s'.swings < |r|
    ensures Ring.Inv(s'.ring) && NamesOk(r, s') && s.ring.clock <= s'.ring.clock
    ensures |s'.ring.threads| == |s.ring.threads| && s.swings <= s'.swings <= s.swings + 1
    ensures forall id :: id in s'.names ==>
              if id in s.names then s'.names[id] == s.names[id] else s'.names[id] >= s.ring.clock
    ensures forall id :: id in s.names ==> id in s'.names
    ensures forall j :: 0 <= j < |s.ring.threads| && s'.ring.threads[j].phase.Idle? && s.ring.threads[j].phase.Idle? ==>
              s'.ring.threads[j].began == s.ring.threads[j].began
  {
    hide Runs.Run, Ring.Inv, Ring.Next, Ring.Enabled;
    if s' == s.(swings := s.swings + 1) {
      RetiredGrows(d, r, s.swings);
    } else if exists act :: Ring.Enabled(s.ring, act) && !act.Retire? && s' == s.(ring := Ring.Next(s.ring, act)) {
      var act :| Ring.Enabled(s.ring, act) && !act.Retire? && s' == s.(ring := Ring.Next(s.ring, act));
      RingStep(s.ring, act);
    } else {
      var i, closes, id :| Retires(r, s, s', i, closes, id);
      RingStep(s.ring, Ring.Retire(i, closes));
    }
  }

  lemma RingStep(s: Ring.State, act: Ring.Action)
    requires Ring.Inv(s) && Ring.Enabled(s, act)
    ensures var s' := Ring.Next(s, act);
            && Ring.Inv(s') && s'.clock == s.clock + 1 && |s'.threads| == |s.threads|
            && forall j :: 0 <= j < |s.threads| && s'.threads[j].phase.Idle? && s.threads[j].phase.Idle? ==>
                 s'.threads[j].began == s.threads[j].began
  {
    Proofs.StepInv(s, act);
    Proofs.StepSize(s, act);
    forall j | 0 <= j < |s.threads| && Ring.Next(s, act).threads[j].phase.Idle? && s.threads[j].phase.Idle?
      ensures Ring.Next(s, act).threads[j].began == s.threads[j].began
    {
      Proofs.StepBegan(s, act, j);
    }
  }

  lemma {:induction false} RunOk(d: Degree, n: nat, r: seq<Tree.State>, b: seq<Both>, m: nat)
    requires Run(d, n, r, b) && m < |b|
    ensures Ring.Inv(b[m].ring) && NamesOk(r, b[m]) && |b[m].ring.threads| == n
  {
    hide Ring.Inv, Runs.Run, Ring.Initial;
    if m == 0 {
      Started(n);
    } else {
      RunOk(d, n, r, b, m - 1);
      assert Steps(r, b[m - 1], b[m]);
      hide Steps, NamesOk;
      StepOk(d, r, b[m - 1], b[m]);
    }
  }

  lemma Started(n: nat)
    requires n > 0
    ensures Ring.Inv(Ring.Initial(n)) && |Ring.Initial(n).threads| == n
  {
    Ring.InitialInv(n);
  }

  /** Thread j is outside startOp, inside one operation, from step p to step q. */
  ghost predicate InOperation(b: seq<Both>, j: nat, p: nat, q: nat) {
    p <= q < |b| && forall m :: p <= m <= q ==> j < |b[m].ring.threads| && b[m].ring.threads[j].phase.Idle?
  }

  lemma {:induction false} SameOperation(d: Degree, n: nat, r: seq<Tree.State>, b: seq<Both>, j: nat, p: nat, q: nat)
    requires Run(d, n, r, b) && InOperation(b, j, p, q)
    ensures b[q].ring.threads[j].began == b[p].ring.threads[j].began
    decreases q
  {
    hide Ring.Inv, NamesOk, Runs.Run;
    if p < q {
      SameOperation(d, n, r, b, j, p, q - 1);
      RunOk(d, n, r, b, q - 1);
      assert Steps(r, b[q - 1], b[q]);
      hide Steps;
      StepOk(d, r, b[q - 1], b[q]);
    }
  }

  /** An address without a name at step p gets one no earlier than p. */
  lemma {:induction false} NamedLater(d: Degree, n: nat, r: seq<Tree.State>, b: seq<Both>, id: nat, p: nat, q: nat)
    requires Run(d, n, r, b) && p <= q < |b| && id !in b[p].names
    ensures b[p].ring.clock <= b[q].ring.clock
    ensures id in b[q].names ==> b[q].names[id] >= b[p].ring.clock
    decreases q
  {
    hide Ring.Inv, NamesOk, Runs.Run;
    if p < q {
      NamedLater(d, n, r, b, id, p, q - 1);
      RunOk(d, n, r, b, q - 1);
      assert Steps(r, b[q - 1], b[q]);
      hide Steps, Run;
      NamedNow(d, r, b[q - 1], b[q], id);
    }
  }

  lemma NamedNow(d: Degree, r: seq<Tree.State>, s: Both, s': Both, id: nat)
    requires Runs.Run(d, r) && Ring.Inv(s.ring) && NamesOk(r, s) && Steps(r, s, s') && s'.swings < |r|
    ensures s.ring.clock <= s'.ring.clock
    ensures id in s'.names ==> if id in s.names then s'.names[id] == s.names[id] else s'.names[id] >= s.ring.clock
  {
    hide Ring.Inv, Runs.Run, NamesOk, Steps;
    StepOk(d, r, s, s');
  }

  /** The tree passes through every state between two. */
  lemma {:induction false} Passes(d: Degree, n: nat, r: seq<Tree.State>, b: seq<Both>, p: nat, q: nat, t: nat) returns (m: nat)
    requires Run(d, n, r, b) && p <= q < |b| && b[p].swings <= t <= b[q].swings
    ensures p <= m <= q && b[m].swings == t
    decreases q
  {
    hide Ring.Inv, NamesOk, Runs.Run;
    m := q;
    if b[q].swings != t {
      RunOk(d, n, r, b, q - 1);
      assert Steps(r, b[q - 1], b[q]);
      hide Steps;
      StepOk(d, r, b[q - 1], b[q]);
      m := Passes(d, n, r, b, p, q - 1, t);
    }
  }

  /** A node that was linked at some moment of an operation is not released before the operation
      ends, even if it is unlinked and retired meanwhile. */
  lemma LinkedIsSafe(d: Degree, n: nat, r: seq<Tree.State>, b: seq<Both>, j: nat, p: nat, q: nat, m: nat, id: nat)
    requires Run(d, n, r, b) && InOperation(b, j, p, q) && p <= m <= q
    requires Paths.Linked(r[b[m].swings].root, id)
    ensures id in b[q].names ==> !Proofs.Released(b[q].ring, b[q].names[id])
  {
    RunOk(d, n, r, b, m);
    RunOk(d, n, r, b, q);
    Runs.RunInv(d, r, b[m].swings);
    Runs.AddressState(d, r[b[m].swings], id);
    NamedLater(d, n, r, b, id, m, q);
    SameOperation(d, n, r, b, j, p, m);
    SameOperation(d, n, r, b, j, p, q);
    BeganBefore(b[m].ring, j);
    hide Ring.Inv, Runs.Run;
    if id in b[q].names && Proofs.Released(b[q].ring, b[q].names[id]) {
      Proofs.ReleasedIsQuiet(b[q].ring, b[q].names[id], j);
    }
  }

  lemma BeganBefore(s: Ring.State, j: nat)
    requires Ring.Inv(s) && j < |s.threads|
    ensures s.threads[j].began < s.clock
  {
    assert Ring.ThreadOk(s, s.threads[j]);
  }

  /** No use after free: a thread that searches the tree inside an operation, reading one pointer at a
      time while others change the tree, may use every node it has visited until the operation ends:
      whatever was retired of them is not freed, nor even released for freeing. */
  lemma NoUseAfterFree(d: Degree, n: nat, r: seq<Tree.State>, b: seq<Both>,
                       j: nat, p: nat, q: nat, k: int, v: seq<Runs.Visit>, e: nat)
    requires Run(d, n, r, b) && InOperation(b, j, p, q)
    requires Runs.Search(r, k, v) && e < |v|
    requires b[p].swings <= v[0].time && v[e].time <= b[q].swings
    ensures v[e].id in b[q].names ==> !Proofs.Released(b[q].ring, b[q].names[v[e].id])
  {
    var t := Runs.Visited(d, r, k, v, e);
    Paths.LocatedIsLinked(r[t].root, k, v[e].id, 0);
    var m := Passes(d, n, r, b, p, q, t);
    LinkedIsSafe(d, n, r, b, j, p, q, m, v[e].id);
  }
}
