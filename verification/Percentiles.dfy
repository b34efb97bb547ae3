/** From samples recorded by many threads to percentiles: counting into buckets,
    reporting, merging, and reading a percentile off the merged histogram. */
module Percentiles {
  import opened Histogram

  const SAMPLE_LIMIT := 0x1_0000_0000_0000_0000

  // ---------------------------------------------------------------------- counting

  function BucketCount(xs: seq<nat>, i: nat): nat {
    if xs == [] then 0 else BucketCount(xs[..|xs| - 1], i) + if Bucket(xs[|xs| - 1]) == i then 1 else 0
  }

  /** Samples in buckets below i. */
  function CountBelow(xs: seq<nat>, i: nat): nat {
    if xs == [] then 0 else CountBelow(xs[..|xs| - 1], i) + if Bucket(xs[|xs| - 1]) < i then 1 else 0
  }

  /** Samples less than v. */
  function CountLess(xs: seq<nat>, v: nat): nat {
    if xs == [] then 0 else CountLess(xs[..|xs| - 1], v) + if xs[|xs| - 1] < v then 1 else 0
  }

  lemma {:induction false} OneMoreBucket(xs: seq<nat>, i: nat)
    ensures CountBelow(xs, i + 1) == CountBelow(xs, i) + BucketCount(xs, i)
    ensures CountBelow(xs, 0) == 0
  {
    if xs != [] {
      OneMoreBucket(xs[..|xs| - 1], i);
    }
  }

  /** Buckets below that of q hold only smaller samples; those up to it, all samples up to q. */
  lemma {:induction false} BelowBucket(xs: seq<nat>, q: nat)
    ensures CountBelow(xs, Bucket(q)) <= CountLess(xs, q)
    ensures CountLess(xs, q + 1) <= CountBelow(xs, Bucket(q) + 1)
  {
    if xs != [] {
      var x := xs[|xs| - 1];
      BelowBucket(xs[..|xs| - 1], q);
      if x <= q {
        BucketMonotone(x, q);
      } else {
        BucketMonotone(q, x);
      }
    }
  }

  lemma {:induction false} CountAll(xs: seq<nat>, v: nat)
    requires forall x :: x in xs ==> x < v
    ensures CountLess(xs, v) == |xs|
  {
    if xs != [] {
      var k := |xs| - 1;
      forall x | x in xs[..k] ensures x < v {
        assert x in xs;
      }
      assert xs[k] in xs;
      CountAll(xs[..k], v);
    }
  }

  lemma {:induction false} CountNone(xs: seq<nat>)
    ensures CountLess(xs, 0) == 0
  {
    if xs != [] {
      CountNone(xs[..|xs| - 1]);
    }
  }

  lemma {:induction false} CountBucketsUpTo(xs: seq<nat>, n: nat)
    ensures CountBelow(xs, n) <= |xs|
    ensures (forall x :: x in xs ==> Bucket(x) < n) ==> CountBelow(xs, n) == |xs|
  {
    if xs != [] {
      CountBucketsUpTo(xs[..|xs| - 1], n);
    }
  }

  lemma {:induction false} CountStep(xs: seq<nat>, v: nat)
    ensures CountLess(xs, v) <= CountLess(xs, v + 1)
    ensures CountLess(xs, v) < CountLess(xs, v + 1) ==> v in xs
  {
    if xs != [] {
      CountStep(xs[..|xs| - 1], v);
    }
  }

  /** The true p-quantile: the smallest sample that at least a share p of all samples do not exceed. */
  ghost predicate IsQuantile(xs: seq<nat>, p: real, q: nat) {
    HasRank(xs, |xs| as real * p, q)
  }

  ghost predicate HasRank(xs: seq<nat>, need: real, q: nat) {
    q in xs && CountLess(xs, q) as real < need <= CountLess(xs, q + 1) as real
  }

  lemma {:induction false} RankExists(xs: seq<nat>, need: real, v: nat) returns (q: nat)
    requires 0.0 < need <= CountLess(xs, v) as real
    ensures HasRank(xs, need, q)
  {
    if v == 0 {
      CountNone(xs);
    } else if CountLess(xs, v - 1) as real >= need {
      q := RankExists(xs, need, v - 1);
    } else {
      CountStep(xs, v - 1);
      q := v - 1;
    }
  }

  lemma QuantileExists(xs: seq<nat>, p: real) returns (q: nat)
    requires xs != [] && 0.0 < p <= 1.0
    ensures IsQuantile(xs, p, q)
  {
    hide CountLess, HasRank;
    var v := AboveAll(xs);
    CountAll(xs, v);
    Share(|xs| as real, p);
    q := RankExists(xs, |xs| as real * p, v);
  }

  lemma Share(n: real, p: real)
    requires 0.0 < n && 0.0 < p <= 1.0
    ensures 0.0 < n * p <= n
  {
  }

  lemma {:induction false} AboveAll(xs: seq<nat>) returns (v: nat)
    ensures forall x :: x in xs ==> x < v
  {
    if xs == [] {
      v := 0;
    } else {
      var k := |xs| - 1;
      v := AboveAll(xs[..k]);
      v := if xs[k] < v then v else xs[k] + 1;
      assert xs == xs[..k] + [xs[k]];
    }
  }

  // --------------------------------------------------------------------- histograms

  /** h lists the buckets that are not empty, with their counts. */
  ghost predicate IsHist(h: map<nat, nat>, xs: seq<nat>) {
    && (forall i :: i in h ==> h[i] == BucketCount(xs, i) > 0)
    && (forall i: nat :: i !in h ==> BucketCount(xs, i) == 0)
  }

  function Get(h: map<nat, nat>, i: nat): nat {
    if i in h then h[i] else 0
  }

  /** Everything counted under keys below n. */
  function Cum(h: map<nat, nat>, n: nat): nat {
    if n == 0 then 0 else Cum(h, n - 1) + Get(h, n - 1)
  }

  lemma {:induction false} CumGap(h: map<nat, nat>, m: nat, n: nat)
    requires m <= n && forall i :: m <= i < n ==> i !in h
    ensures Cum(h, n) == Cum(h, m)
  {
    if m < n {
      CumGap(h, m, n - 1);
    }
  }

  lemma {:induction false} CumGrows(h: map<nat, nat>, m: nat, n: nat)
    requires m <= n
    ensures Cum(h, m) <= Cum(h, n)
  {
    if m < n {
      CumGrows(h, m, n - 1);
    }
  }

  lemma {:induction false} CumCounts(h: map<nat, nat>, xs: seq<nat>, n: nat)
    requires IsHist(h, xs)
    ensures Cum(h, n) == CountBelow(xs, n)
  {
    if n == 0 {
      OneMoreBucket(xs, 0);
    } else {
      CumCounts(h, xs, n - 1);
      OneMoreBucket(xs, n - 1);
    }
  }

  /** The sum of all values, whatever the keys. */
  ghost predicate IsTotal(h: map<nat, nat>, tot: nat) {
    forall n: nat :: (forall k :: k in h ==> k < n) ==> Cum(h, n) == tot
  }

  /** The first key at which the running count reaches `need`. */
  ghost predicate IsFirst(h: map<nat, nat>, need: real, i: nat) {
    && i in h && Cum(h, i + 1) as real >= need
    && forall j :: j in h && j < i ==> (Cum(h, j + 1) as real) < need
  }

  /** The lower bound of the first such bucket, or 0 if `need` is never reached. */
  ghost predicate Picks(h: map<nat, nat>, need: real, r: nat) {
    || (exists i :: IsFirst(h, need, i) && r == BucketLo(i))
    || ((forall j :: j in h ==> (Cum(h, j + 1) as real) < need) && r == 0)
  }

  ghost predicate PctIs(h: map<nat, nat>, p: real, r: nat) {
    exists tot: nat :: IsTotal(h, tot) && Picks(h, tot as real * p, r)
  }

  method Least(keys: set<nat>) returns (m: nat)
    requires keys != {}
    ensures m in keys && forall k :: k in keys ==> m <= k
  {
    m :| m in keys;
    var others := keys - {m};
    while others != {}
      invariant m in keys && others <= keys && forall k :: k in keys && k !in others ==> m <= k
      decreases |others|
    {
      var k :| k in others;
      if k < m {
        m := k;
      }
      others := others - {k};
    }
  }

  predicate Ascending(ks: seq<nat>) {
    forall s, t :: 0 <= s < t < |ks| ==> ks[s] < ks[t]
  }

  /** ks lists the keys of h in order. */
  ghost predicate Sorts(ks: seq<nat>, h: map<nat, nat>) {
    Ascending(ks) && forall k :: k in ks <==> k in h
  }

  /** sorted(hist) */
  method SortedKeys(h: map<nat, nat>) returns (ks: seq<nat>)
    ensures Sorts(ks, h)
  {
    ks := [];
    var rest := h.Keys;
    while rest != {}
      invariant Ascending(ks)
      invariant forall s, l :: 0 <= s < |ks| && l in rest ==> ks[s] < l
      invariant forall k :: k in h <==> k in ks || k in rest
      decreases |rest|
    {
      var m := Least(rest);
      ks := ks + [m];
      rest := rest - {m};
    }
  }

  /** A share p of all counts has to be reached. */
  method Pct(h: map<nat, nat>, p: real) returns (r: nat)
    ensures PctIs(h, p, r)
  {
    var ks := SortedKeys(h);
    var tot := Sum(h, ks);
    r := FirstReaching(h, ks, tot as real * p);
  }

  /** The first key at which the running count reaches `need`. */
  method FirstReaching(h: map<nat, nat>, ks: seq<nat>, need: real) returns (r: nat)
    requires Sorts(ks, h)
    ensures Picks(h, need, r)
  {
    hide Cum, BucketLo;
    var c := 0;
    for t := 0 to |ks|
      invariant c == if t == 0 then 0 else Cum(h, ks[t - 1] + 1)
      invariant forall s :: 0 <= s < t ==> (Cum(h, ks[s] + 1) as real) < need
    {
      CumToNext(h, ks, t);
      c := c + h[ks[t]];
      if c as real >= need {
        assert IsFirst(h, need, ks[t]);
        return BucketLo(ks[t]);
      }
    }
    return 0;
  }

  method Sum(h: map<nat, nat>, ks: seq<nat>) returns (tot: nat)
    requires Sorts(ks, h)
    ensures IsTotal(h, tot)
  {
    tot := 0;
    for t := 0 to |ks|
      invariant tot == if t == 0 then 0 else Cum(h, ks[t - 1] + 1)
    {
      CumToNext(h, ks, t);
      tot := tot + h[ks[t]];
    }
    forall n: nat | forall k :: k in h ==> k < n ensures Cum(h, n) == tot {
      CumGap(h, if ks == [] then 0 else ks[|ks| - 1] + 1, n) by {
        NoKeyAfter(h, ks);
      }
    }
  }

  lemma NoKeyAfter(h: map<nat, nat>, ks: seq<nat>)
    requires Sorts(ks, h)
    ensures forall k :: k in h ==> ks != [] && k <= ks[|ks| - 1]
  {
    forall k | k in h ensures ks != [] && k <= ks[|ks| - 1] {
      assert k in ks;
    }
  }

  lemma CumToNext(h: map<nat, nat>, ks: seq<nat>, t: nat)
    requires Sorts(ks, h)
    requires t < |ks|
    ensures ks[t] in h
    ensures Cum(h, ks[t] + 1) == (if t == 0 then 0 else Cum(h, ks[t - 1] + 1)) + h[ks[t]]
  {
    assert ks[t] in ks;
    var m := if t == 0 then 0 else ks[t - 1] + 1;
    forall i | m <= i < ks[t] ensures i !in h {
      assert forall s :: 0 <= s < |ks| ==> if s < t then ks[s] < m else ks[s] >= ks[t];
    }
    CumGap(h, m, ks[t]);
  }

  /** Percentile accuracy: on the histogram of any 64-bit samples, the result is the lower bound of the
      bucket of the true quantile q: q itself below 4, and above that less than 20 percent off. */
  lemma PctAccurate(h: map<nat, nat>, xs: seq<nat>, p: real, q: nat, r: nat)
    requires IsHist(h, xs) && IsQuantile(xs, p, q) && PctIs(h, p, r)
    ensures r == BucketLo(Bucket(q)) && r <= q
    ensures if q < 4 then r == q else 4 * q < 5 * r
  {
    hide Picks, IsTotal, IsHist, HasRank, Bucket, BucketLo;
    var tot: nat :| IsTotal(h, tot) && Picks(h, tot as real * p, r);
    TotalIsSize(h, xs, tot);
    var need := tot as real * p;
    assert need == |xs| as real * p;
    PicksQuantile(h, xs, need, q, r) by {
      QuantileRank(xs, p, q);
    }
    BucketBetween(q);
    Accuracy(q);
  }

  lemma QuantileRank(xs: seq<nat>, p: real, q: nat)
    requires IsQuantile(xs, p, q)
    ensures HasRank(xs, |xs| as real * p, q)
  {
  }

  lemma PicksQuantile(h: map<nat, nat>, xs: seq<nat>, need: real, q: nat, r: nat)
    requires IsHist(h, xs) && HasRank(xs, need, q) && Picks(h, need, r)
    ensures r == BucketLo(Bucket(q))
  {
    hide Bucket, BucketLo, Cum, CountLess, CountBelow, BucketCount;
    var b := Bucket(q);
    BelowBucket(xs, q);
    CumCounts(h, xs, b);
    CumCounts(h, xs, b + 1);
    OneMoreBucket(xs, b);
    assert b in h;
    var i :| IsFirst(h, need, i) && r == BucketLo(i);
    if i < b {
      CumGrows(h, i + 1, b);
    }
  }

  lemma TotalIsSize(h: map<nat, nat>, xs: seq<nat>, tot: nat)
    requires IsHist(h, xs) && IsTotal(h, tot)
    ensures tot == |xs|
  {
    var n := Above(xs, h.Keys);
    CumCounts(h, xs, n);
    CountBucketsUpTo(xs, n);
  }

  /** A number above all keys and all buckets. */
  lemma {:induction false} Above(xs: seq<nat>, keys: set<nat>) returns (n: nat)
    ensures forall x :: x in xs ==> Bucket(x) < n
    ensures forall k :: k in keys ==> k < n
    decreases |keys|, |xs|
  {
    hide Bucket;
    if keys != {} {
      var k :| k in keys;
      var rest := keys - {k};
      n := Above(xs, rest);
      n := if k < n then n else k + 1;
      assert keys == rest + {k};
    } else if xs != [] {
      var k := |xs| - 1;
      n := Above(xs[..k], keys);
      n := if Bucket(xs[k]) < n then n else Bucket(xs[k]) + 1;
      assert xs == xs[..k] + [xs[k]];
    } else {
      n := 0;
    }
  }
}
