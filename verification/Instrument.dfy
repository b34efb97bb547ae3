/** Recording per thread, reporting, and merging the reports of all threads. */
module Instrument {
  import opened Histogram
  import opened Percentiles

  /** One "bucket:count" item of a report line. */
  datatype Item = Item(bucket: nat, count: nat)

  function MaxOf(xs: seq<nat>): nat {
    if xs == [] then 0 else
      var m := MaxOf(xs[..|xs| - 1]);
      if xs[|xs| - 1] > m then xs[|xs| - 1] else m
  }

  function SumOf(xs: seq<nat>): nat {
    if xs == [] then 0 else SumOf(xs[..|xs| - 1]) + xs[|xs| - 1]
  }

  lemma MaxGrows(xs: seq<nat>, d: nat)
    ensures MaxOf(xs + [d]) == if d > MaxOf(xs) then d else MaxOf(xs)
  {
    assert (xs + [d])[..|xs|] == xs;
  }

  lemma {:induction false} MaxIsLargest(xs: seq<nat>)
    ensures forall i :: 0 <= i < |xs| ==> xs[i] <= MaxOf(xs)
    ensures if xs == [] then MaxOf(xs) == 0 else MaxOf(xs) in xs
  {
    if xs != [] {
      var k := |xs| - 1;
      var before := xs[..k];
      MaxIsLargest(before);
      forall i | 0 <= i < |xs| ensures xs[i] <= MaxOf(xs) {
        assert i < k ==> before[i] == xs[i];
      }
      if MaxOf(xs) != xs[k] && k > 0 {
        var j :| 0 <= j < k && before[j] == MaxOf(before);
        assert xs[j] == MaxOf(xs);
      }
    }
  }

  lemma {:induction false} SumAdds(xs: seq<nat>, ys: seq<nat>)
    ensures SumOf(xs + ys) == SumOf(xs) + SumOf(ys)
    ensures |xs| == 1 ==> SumOf(xs) == xs[0]
  {
    if ys == [] {
      assert xs + ys == xs;
    } else {
      assert (xs + ys)[..|xs + ys| - 1] == xs + ys[..|ys| - 1];
      SumAdds(xs, ys[..|ys| - 1]);
    }
  }

  class ThreadStats {
    const hist: array<nat>
    var retired: nat
    var freed: nat
    var ops: nat
    var peak: nat
    var sum: nat
    var samples: nat
    var maxcyc: nat
    ghost var latencies: seq<nat>
    ghost var backlogs: seq<nat>

    /** The counters are those of everything recorded so far; a backlog is sampled every 256 operations. */
    ghost predicate Valid()
      reads this, hist
    {
      && hist.Length == BUCKETS
      && (forall x :: x in latencies ==> x < SAMPLE_LIMIT)
      && (forall i :: 0 <= i < BUCKETS ==> hist[i] == BucketCount(latencies, i))
      && ops == |latencies| && maxcyc == MaxOf(latencies)
      && samples == |backlogs| == ops / 256 && peak == MaxOf(backlogs) && sum == SumOf(backlogs)
    }

    constructor ()
      ensures Valid() && latencies == [] && retired == 0 && freed == 0 && fresh(hist)
    {
      hist := new nat[BUCKETS](_ => 0);
      retired, freed, ops, peak, sum, samples, maxcyc := 0, 0, 0, 0, 0, 0, 0;
      latencies, backlogs := [], [];
    }

    method OnRetire()
      modifies this`retired
      ensures retired == old(retired) + 1
    {
      retired := retired + 1;
    }

    method OnFree(n: nat)
      modifies this`freed
      ensures freed == old(freed) + n
    {
      freed := freed + n;
    }

    /** The end of a timed startOp that took d cycles. */
    method Record(d: nat)
      requires Valid() && d < SAMPLE_LIMIT
      modifies this, hist
      ensures Valid() && latencies == old(latencies) + [d] && retired == old(retired) && freed == old(freed)
      ensures backlogs == if ops % 256 == 0 then old(backlogs) + [if retired > freed then retired - freed else 0]
                          else old(backlogs)
    {
      hide Bucket, MaxOf, SumOf;
      BucketRange(d);
      MaxGrows(latencies, d);
      hist[Bucket(d)] := hist[Bucket(d)] + 1;
      latencies := latencies + [d];
      assert latencies[..|latencies| - 1] == old(latencies);
      if d > maxcyc {
        maxcyc := d;
      }
      ops := ops + 1;
      WindowCount(old(ops));
      if ops % 256 == 0 {
        SampleBacklog();
      }
    }

    method SampleBacklog()
      requires samples == |backlogs| && peak == MaxOf(backlogs) && sum == SumOf(backlogs)
      modifies this`peak, this`sum, this`samples, this`backlogs
      ensures backlogs == old(backlogs) + [if retired > freed then retired - freed else 0]
      ensures samples == |backlogs| && peak == MaxOf(backlogs) && sum == SumOf(backlogs)
    {
      var b := if retired > freed then retired - freed else 0;
      if b > peak {
        peak := b;
      }
      sum := sum + b;
      samples := samples + 1;
      backlogs := backlogs + [b];
      assert backlogs[..|backlogs| - 1] == old(backlogs);
    }

    /** The items of the report line: the buckets that are not empty, in order. */
    method Report() returns (line: seq<Item>)
      requires Valid()
      ensures Reports(line, latencies)
    {
      hide Bucket;
      line := [];
      for i := 0 to BUCKETS
        invariant forall k :: 0 <= k < |line| ==> line[k].count > 0 && line[k].bucket < i
        invariant forall j: nat :: ItemSum(line, j) == if j < i then BucketCount(latencies, j) else 0
      {
        if hist[i] > 0 {
          ghost var before := line;
          line := line + [Item(i, hist[i])];
          assert line[..|line| - 1] == before;
        }
      }
      forall j: nat ensures ItemSum(line, j) == BucketCount(latencies, j) {
        if j >= BUCKETS {
          NoSuchBucket(latencies, j);
        }
      }
    }
  }

  lemma WindowCount(x: nat)
    ensures (x + 1) / 256 == x / 256 + if (x + 1) % 256 == 0 then 1 else 0
  {
  }

  lemma {:induction false} NoSuchBucket(xs: seq<nat>, j: nat)
    requires j >= BUCKETS && forall x :: x in xs ==> x < SAMPLE_LIMIT
    ensures BucketCount(xs, j) == 0
  {
    if xs != [] {
      var k := |xs| - 1;
      assert xs[k] in xs;
      BucketRange(xs[k]);
      forall x | x in xs[..k] ensures x < SAMPLE_LIMIT {
        assert x in xs;
      }
      NoSuchBucket(xs[..k], j);
    }
  }

  /** What a line of items counts for bucket j. */
  function ItemSum(line: seq<Item>, j: nat): nat {
    if line == [] then 0
    else ItemSum(line[..|line| - 1], j) + if line[|line| - 1].bucket == j then line[|line| - 1].count else 0
  }

  /** The line counts exactly these samples, without empty items. */
  ghost predicate Reports(line: seq<Item>, xs: seq<nat>) {
    && (forall k :: 0 <= k < |line| ==> line[k].count > 0)
    && (forall j: nat :: ItemSum(line, j) == BucketCount(xs, j))
  }

  /** The samples of all threads. */
  function Flat(xss: seq<seq<nat>>): seq<nat> {
    if xss == [] then [] else Flat(xss[..|xss| - 1]) + xss[|xss| - 1]
  }

  lemma {:induction false} CountAppend(xs: seq<nat>, ys: seq<nat>, i: nat)
    ensures BucketCount(xs + ys, i) == BucketCount(xs, i) + BucketCount(ys, i)
  {
    hide Bucket;
    if ys == [] {
      assert xs + ys == xs;
    } else {
      var k := |ys| - 1;
      assert (xs + ys)[..|xs + ys| - 1] == xs + ys[..k];
      CountAppend(xs, ys[..k], i);
    }
  }

  /** Adds the count of each item to what the histogram has for its bucket. */
  method MergeLine(hist: map<nat, nat>, line: seq<Item>, ghost xs: seq<nat>, ghost ys: seq<nat>)
    returns (merged: map<nat, nat>)
    requires IsHist(hist, xs) && Reports(line, ys)
    ensures IsHist(merged, xs + ys)
  {
    merged := hist;
    for k := 0 to |line|
      invariant forall i: nat :: Get(merged, i) == BucketCount(xs, i) + ItemSum(line[..k], i)
      invariant forall i :: i in merged ==> merged[i] > 0
    {
      assert line[..k + 1][..k] == line[..k];
      var (i, c) := (line[k].bucket, line[k].count);
      merged := merged[i := Get(merged, i) + c];
    }
    assert line[..|line|] == line;
    forall i: nat ensures Get(merged, i) == BucketCount(xs + ys, i) {
      CountAppend(xs, ys, i);
    }
  }

  /** The merge of all lines is the histogram of all samples together. */
  method Merge(lines: seq<seq<Item>>, ghost xss: seq<seq<nat>>) returns (hist: map<nat, nat>)
    requires |lines| == |xss| && forall k :: 0 <= k < |lines| ==> Reports(lines[k], xss[k])
    ensures IsHist(hist, Flat(xss))
  {
    hist := map[];
    for k := 0 to |lines|
      invariant IsHist(hist, Flat(xss[..k]))
    {
      assert xss[..k + 1][..k] == xss[..k];
      hist := MergeLine(hist, lines[k], Flat(xss[..k]), xss[k]);
    }
    assert xss[..|lines|] == xss;
  }

  /** From the report lines to a percentile of the latencies of all threads. */
  method Percentile(lines: seq<seq<Item>>, p: real, ghost xss: seq<seq<nat>>, ghost q: nat) returns (r: nat)
    requires |lines| == |xss| && forall k :: 0 <= k < |lines| ==> Reports(lines[k], xss[k])
    requires IsQuantile(Flat(xss), p, q)
    ensures r == BucketLo(Bucket(q)) && r <= q && if q < 4 then r == q else 4 * q < 5 * r
  {
    var hist := Merge(lines, xss);
    r := Pct(hist, p);
    PctAccurate(hist, Flat(xss), p, q, r);
  }
}
