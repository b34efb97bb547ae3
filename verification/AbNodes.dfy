/** Nodes of the relaxed (a,b)-tree, the order and weight invariant, and what a search sees. */
module AbNodes {

  datatype Option<+T> = None | Some(value: T)

  /** The template parameter DEGREE. The code's arithmetic needs at least three. */
  type Degree = d: nat | 3 <= d witness 3

  /** a = max(DEGREE/4, 2); the upper bound b is DEGREE itself. */
  function MinDegree(d: Degree): nat {
    if d / 4 > 2 then d / 4 else 2
  }

  /** One record of the tree. `id` is the node's address: never reused, so that
      removal can be spoken of. A leaf's pointer array holds values. */
  datatype Node =
    | Leaf(id: nat, weight: bool, searchKey: int, keys: seq<int>, vals: seq<int>)
    | Internal(id: nat, weight: bool, searchKey: int, keys: seq<int>, kids: seq<Node>)
  {
    function Size(): nat {
      if Leaf? then |keys| else |kids|
    }

    function Kids(): seq<Node> {
      if Leaf? then [] else kids
    }

    function W(): nat {
      if weight then 1 else 0
    }
  }

  // ---------------------------------------------------------------- searching

  predicate Sorted(keys: seq<int>) {
    forall i, j :: 0 <= i < j < |keys| ==> keys[i] < keys[j]
  }

  /** Index of the child to follow for k: equal keys go right. */
  function ChildIndex(keys: seq<int>, k: int): (r: nat)
    ensures r <= |keys|
    ensures forall j :: 0 <= j < r ==> keys[j] <= k
    ensures r < |keys| ==> k < keys[r]
  {
    if keys == [] || k < keys[0] then 0 else
      var s := ChildIndex(keys[1..], k);
      assert forall j :: 1 <= j < s + 1 ==> keys[j] == keys[1..][j - 1];
      s + 1
  }

  /** Index of the first key that is not smaller than k. */
  function KeyIndex(keys: seq<int>, k: int): (r: nat)
    ensures r <= |keys|
    ensures forall j :: 0 <= j < r ==> keys[j] < k
    ensures r < |keys| ==> k <= keys[r]
  {
    if keys == [] || k <= keys[0] then 0 else
      var s := KeyIndex(keys[1..], k);
      assert forall j :: 1 <= j < s + 1 ==> keys[j] == keys[1..][j - 1];
      s + 1
  }

  /** In a sorted key array the child index is fixed by its two neighbours. */
  lemma ChildIndexUnique(keys: seq<int>, k: int, r: nat)
    requires Sorted(keys) && r <= |keys|
    requires r > 0 ==> keys[r - 1] <= k
    requires r < |keys| ==> k < keys[r]
    ensures ChildIndex(keys, k) == r
  {
    assert forall j :: 0 <= j < r ==> keys[j] <= k;
    var s := ChildIndex(keys, k);
  }

  function LeafGet(keys: seq<int>, vals: seq<int>, k: int): Option<int> {
    var i := KeyIndex(keys, k);
    if i < |keys| && i < |vals| && keys[i] == k then Some(vals[i]) else None
  }

  /** What `find` computes: descend to a leaf, then look k up there. */
  function Lookup(t: Node, k: int): Option<int> {
    match t
    case Leaf(_, _, _, keys, vals) => LeafGet(keys, vals, k)
    case Internal(_, _, _, keys, kids) =>
      var i := ChildIndex(keys, k);
      if i < |kids| then Lookup(kids[i], k) else None
  }

  /** What a fix-up's search computes: follow k until the node with this id. */
  function Locate(t: Node, k: int, id: nat): Option<Node> {
    if t.id == id then Some(t) else
    match t
    case Leaf(_, _, _, _, _) => None
    case Internal(_, _, _, keys, kids) =>
      var i := ChildIndex(keys, k);
      if i < |kids| then Locate(kids[i], k, id) else None
  }

  // -------------------------------------------------------------- invariant

  /** The keys a subtree may hold, lo <= key < hi, and the weight sum of each
      of its paths down to a leaf. */
  datatype Span = Span(lo: Option<int>, hi: Option<int>, h: int) {
    predicate Has(k: int) {
      (lo.Some? ==> lo.value <= k) && (hi.Some? ==> k < hi.value)
    }

    /** Routing keys lie strictly above the lower bound. */
    predicate Inside(k: int) {
      (lo.Some? ==> lo.value < k) && (hi.Some? ==> k < hi.value)
    }
  }

  /** The span of child i under routing keys `keys`, with h weight left. */
  function Slot(keys: seq<int>, sp: Span, i: nat): Span
    requires i <= |keys|
  {
    Span(if i == 0 then sp.lo else Some(keys[i - 1]),
         if i == |keys| then sp.hi else Some(keys[i]),
         sp.h)
  }

  /** Keys and children of an internal node, apart from its degree bounds:
      sp.h is the weight sum of each child. */
  ghost predicate Fan(d: Degree, keys: seq<int>, kids: seq<Node>, sp: Span)
    decreases kids, 0
  {
    && |kids| == |keys| + 1
    && Sorted(keys)
    && (forall i :: 0 <= i < |keys| ==> sp.Inside(keys[i]))
    && (forall i :: 0 <= i < |kids| ==> Wf(d, kids[i], Slot(keys, sp, i)))
  }

  ghost predicate Pairs(d: Degree, keys: seq<int>, vals: seq<int>, sp: Span) {
    && |keys| == |vals|
    && Sorted(keys)
    && (forall i :: 0 <= i < |keys| ==> sp.Has(keys[i]))
  }

  /** The invariant of every subtree: ordered, at most b entries, weight-0 nodes
      internal with two children, equal path weights, own search key in range. */
  ghost predicate Wf(d: Degree, t: Node, sp: Span)
    decreases t, 1
  {
    && sp.Has(t.searchKey)
    && t.Size() <= d
    && match t
       case Leaf(_, weight, _, keys, vals) =>
         weight && sp.h == 1 && Pairs(d, keys, vals, sp)
       case Internal(_, weight, _, keys, kids) =>
         (!weight ==> |kids| == 2) && Fan(d, keys, kids, sp.(h := sp.h - t.W()))
  }

  // ------------------------------------------------------------- accounting

  /** What is counted over a subtree: nodes at one address; nodes; nodes of weight 0, plainly or
      weighed by the path weight above them; nodes with fewer than a entries;
      nodes with either of these violations; the node at one address if it bears a mark. */
  datatype Stat = Address(id: nat) | Nodes | Zeros | Dist | Small(a: nat) | Bad(a: nat) | Marked(id: nat, mark: Mark)

  /** Of weight 0; with fewer than a entries; the same with weight 1; a leaf; internal. */
  datatype Mark = LightNode | SmallNode(a: nat) | ThinNode(a: nat) | LeafNode | InnerNode

  predicate Bears(t: Node, m: Mark) {
    match m
    case LightNode => !t.weight
    case SmallNode(a) => t.Size() < a
    case ThinNode(a) => t.weight && t.Size() < a
    case LeafNode => t.Leaf?
    case InnerNode => t.Internal?
  }

  function Is(x: nat, id: nat): nat {
    if x == id then 1 else 0
  }

  /** A node's own share; `depth` is the path weight above it. */
  function Own(q: Stat, t: Node, depth: nat): nat {
    match q
    case Address(id) => Is(t.id, id)
    case Nodes => 1
    case Zeros => if t.weight then 0 else 1
    case Dist => if t.weight then 0 else depth
    case Small(a) => if t.Size() < a then 1 else 0
    case Bad(a) => if !t.weight || t.Size() < a then 1 else 0
    case Marked(id, m) => if Bears(t, m) then Is(t.id, id) else 0
  }

  function Count(q: Stat, t: Node, depth: nat): nat
    decreases t, 1
  {
    Own(q, t, depth) + if t.Leaf? then 0 else CountF(q, t.kids, depth + t.W())
  }

  function CountF(q: Stat, kids: seq<Node>, depth: nat): nat
    decreases kids, 0
  {
    if kids == [] then 0 else Count(q, kids[0], depth) + CountF(q, kids[1..], depth)
  }

  lemma {:induction false} CountAppend(q: Stat, x: seq<Node>, y: seq<Node>, depth: nat)
    ensures CountF(q, x + y, depth) == CountF(q, x, depth) + CountF(q, y, depth)
  {
    if x == [] {
      assert x + y == y;
    } else {
      assert (x + y)[0] == x[0] && (x + y)[1..] == x[1..] + y;
      CountAppend(q, x[1..], y, depth);
    }
  }
}
