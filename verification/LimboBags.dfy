/** The queue of retired nodes of one thread, oldest first. A node is its birth timestamp. */
module LimboBags {
  /** The result of the announcement scan: nothing announced (u64::MAX), or the smallest timestamp seen. */
  datatype Safe = Unpinned | Pinned(ts: nat)

  /** The scan keeps the smallest timestamp that is not 0. */
  function Smaller(min: Safe, ts: nat): Safe {
    if ts != 0 && (min.Unpinned? || ts < min.ts) then Pinned(ts) else min
  }

  predicate Eligible(birth: nat, safe: Safe) {
    safe.Pinned? ==> birth < safe.ts
  }

  /** How many nodes drain(safe, k) pops. */
  function DrainCount(q: seq<nat>, safe: Safe, k: nat): (c: nat)
    ensures c <= k && c <= |q|
  {
    if k == 0 || q == [] || !Eligible(q[0], safe) then 0 else 1 + DrainCount(q[1..], safe, k - 1)
  }

  function Eligibles(q: seq<nat>, safe: Safe): nat {
    if q == [] then 0 else (if Eligible(q[0], safe) then 1 else 0) + Eligibles(q[1..], safe)
  }

  predicate Increasing(q: seq<nat>) {
    forall i, j :: 0 <= i < j < |q| ==> q[i] < q[j]
  }

  function Min(a: nat, b: nat): nat {
    if a <= b then a else b
  }

  /** Whatever the queue: only nodes born before the smallest announcement are popped, from the front. */
  lemma {:induction false} DrainSafe(q: seq<nat>, safe: Safe, k: nat, i: nat)
    requires i < DrainCount(q, safe, k)
    ensures Eligible(q[i], safe) && (safe.Pinned? ==> q[i] < safe.ts)
  {
    if i > 0 {
      DrainSafe(q[1..], safe, k - 1, i - 1);
    }
  }

  /** And popping stops only at k nodes, at the end of the queue, or at a node that is not older. */
  lemma {:induction false} DrainStops(q: seq<nat>, safe: Safe, k: nat)
    ensures var c := DrainCount(q, safe, k); c < k && c < |q| ==> safe.Pinned? && safe.ts <= q[c]
  {
    if k > 0 && q != [] && Eligible(q[0], safe) {
      DrainStops(q[1..], safe, k - 1);
    }
  }

  lemma {:induction false} NoneEligible(q: seq<nat>, safe: Safe)
    requires Increasing(q) && (q != [] ==> !Eligible(q[0], safe))
    ensures Eligibles(q, safe) == 0
    ensures forall i :: 0 <= i < |q| ==> !Eligible(q[i], safe)
  {
    if |q| > 1 {
      NoneEligible(q[1..], safe);
      forall i | 0 <= i < |q| ensures !Eligible(q[i], safe) {
        if i > 0 {
          assert q[1..][i - 1] == q[i];
        }
      }
    }
  }

  /** On a queue in birth order, drain(safe, k) frees exactly min(k, number eligible) nodes, and
      they are the oldest; what it leaves behind is eligible only if k was reached. */
  lemma {:induction false} DrainExact(q: seq<nat>, safe: Safe, k: nat)
    requires Increasing(q)
    ensures DrainCount(q, safe, k) == Min(k, Eligibles(q, safe))
    ensures DrainCount(q, safe, k) < k ==>
              forall i :: DrainCount(q, safe, k) <= i < |q| ==> !Eligible(q[i], safe)
  {
    if q == [] || !Eligible(q[0], safe) {
      NoneEligible(q, safe);
    } else if k > 0 {
      var r, c := q[1..], DrainCount(q[1..], safe, k - 1);
      DrainExact(r, safe, k - 1);
      if c < k - 1 {
        forall i | c + 1 <= i < |q| ensures !Eligible(q[i], safe) {
          assert !Eligible(r[i - 1], safe);
        }
      }
    }
  }

  /** Without an announced snapshot everything is eligible. */
  lemma {:induction false} DrainUnpinned(q: seq<nat>, k: nat)
    ensures DrainCount(q, Unpinned, k) == Min(k, |q|)
  {
    if k > 0 && q != [] {
      DrainUnpinned(q[1..], k - 1);
    }
  }

  class LimboBag {
    var q: seq<nat>

    constructor ()
      ensures q == []
    {
      q := [];
    }

    method Push(birthTs: nat)
      modifies this
      ensures q == old(q) + [birthTs]
    {
      q := q + [birthTs];
    }

    /** Up to k nodes born before safeTs, oldest first. */
    method Drain(safeTs: Safe, k: nat) returns (freed: nat)
      modifies this
      ensures freed == DrainCount(old(q), safeTs, k)
      ensures q == old(q)[freed..]
    {
      freed := 0;
      while freed < k
        invariant freed <= k && freed <= |old(q)| && q == old(q)[freed..]
        invariant DrainCount(old(q), safeTs, k) == freed + DrainCount(q, safeTs, k - freed)
      {
        if q == [] || !Eligible(q[0], safeTs) {
          break;
        }
        assert q[1..] == old(q)[freed + 1..];
        q := q[1..];
        freed := freed + 1;
      }
    }
  }
}
