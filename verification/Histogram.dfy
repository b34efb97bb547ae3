/** The quarter-octave latency histogram: buckets of 64-bit samples on one side,
    lower bucket bounds and percentiles on the other. */
module Histogram {
  const BUCKETS := 256

  function Shl(x: nat, k: nat): nat {
    if k == 0 then x else 2 * Shl(x, k - 1)
  }

  function Shr(d: nat, k: nat): nat {
    if k == 0 then d else Shr(d, k - 1) / 2
  }

  /** 63 - clz: the index of the highest bit that is set. */
  function Msb(d: nat): nat
    requires d > 0
  {
    if d == 1 then 0 else 1 + Msb(d / 2)
  }

  function Bucket(d: nat): nat {
    if d < 4 then d else
      assert Msb(d) >= 2;
      (Msb(d) - 2) * 4 + 4 + Shr(d, Msb(d) - 2) % 4
  }

  function BucketLo(i: nat): nat {
    if i < 4 then i else Shl(4 + (i - 4) % 4, (i - 4) / 4)
  }

  // ------------------------------------------------------------------------ shifts

  lemma {:induction false} ShlAdd(x: nat, y: nat, k: nat)
    ensures Shl(x + y, k) == Shl(x, k) + Shl(y, k)
  {
    if k > 0 {
      ShlAdd(x, y, k - 1);
    }
  }

  lemma ShlMonotone(x: nat, y: nat, k: nat)
    requires x <= y
    ensures Shl(x, k) <= Shl(y, k)
  {
    ShlAdd(x, y - x, k);
  }

  lemma {:induction false} ShlPositive(k: nat)
    ensures Shl(1, k) > 0
  {
    if k > 0 {
      ShlPositive(k - 1);
    }
  }

  /** Shifting out k bits and back in rounds down to a multiple of 2^k. */
  lemma {:induction false} ShrBetween(d: nat, k: nat)
    ensures Shl(Shr(d, k), k) <= d < Shl(Shr(d, k) + 1, k)
  {
    if k > 0 {
      var y, x := Shr(d, k - 1), Shr(d, k);
      ShrBetween(d, k - 1);
      ShlAdd(x, x, k - 1);
      ShlAdd(x + 1, x + 1, k - 1);
      ShlMonotone(2 * x, y, k - 1);
      ShlMonotone(y + 1, 2 * x + 2, k - 1);
    }
  }

  lemma {:induction false} ShrHalf(d: nat, k: nat)
    ensures Shr(d / 2, k) == Shr(d, k + 1)
  {
    if k > 0 {
      ShrHalf(d, k - 1);
    }
  }

  /** What is left above the two bits below the highest one: 4, 5, 6 or 7. */
  lemma {:induction false} TopBits(d: nat)
    requires d >= 4
    ensures Msb(d) >= 2 && 4 <= Shr(d, Msb(d) - 2) < 8
  {
    if d >= 8 {
      TopBits(d / 2);
      ShrHalf(d, Msb(d) - 3);
    } else {
      assert Msb(d) == 1 + Msb(d / 2) && Msb(d / 2) == 1 + Msb(d / 2 / 2) && d / 2 / 2 == 1;
    }
  }

  // ----------------------------------------------------------------------- buckets

  /** Adjacent lower bounds: the buckets leave no gaps. */
  lemma NextLo(i: nat)
    ensures i >= 4 ==> BucketLo(i + 1) == Shl(4 + (i - 4) % 4 + 1, (i - 4) / 4)
    ensures BucketLo(i) < BucketLo(i + 1)
  {
    if i >= 4 {
      var m, k := (i - 4) % 4, (i - 4) / 4;
      if m == 3 {
        assert (i + 1 - 4) / 4 == k + 1 && (i + 1 - 4) % 4 == 0;
        ShlAdd(4, 4, k);
      } else {
        assert (i + 1 - 4) / 4 == k && (i + 1 - 4) % 4 == m + 1;
      }
      ShlAdd(4 + m, 1, k);
      ShlPositive(k);
    }
  }

  lemma {:induction false} LoIncreases(i: nat, j: nat)
    requires i < j
    ensures BucketLo(i) < BucketLo(j)
  {
    NextLo(j - 1);
    if i < j - 1 {
      LoIncreases(i, j - 1);
    }
  }

  /** A sample lies between its bucket's lower bound and the next one. */
  lemma BucketBetween(d: nat)
    ensures BucketLo(Bucket(d)) <= d < BucketLo(Bucket(d) + 1)
  {
    hide Shl, Shr, Msb;
    NextLo(Bucket(d));
    if d >= 4 {
      TopBits(d);
      QuarterIndex(Msb(d) - 2, Shr(d, Msb(d) - 2));
      ShrBetween(d, Msb(d) - 2);
    }
  }

  lemma QuarterIndex(k: nat, y: nat)
    requires 4 <= y < 8
    ensures var i := k * 4 + 4 + y % 4; (i - 4) / 4 == k && (i - 4) % 4 == y - 4
  {
  }

  /** The buckets from 4 on are quarters of octaves: bucket 4 + 4 * k + m begins at (4 + m) * 2^k. */
  lemma Quarters(k: nat, m: nat)
    requires m < 4
    ensures BucketLo(4 + 4 * k + m) == (4 + m) * Shl(1, k)
    ensures k == 0 ==> Shl(1, k) == 1
    ensures k > 0 ==> Shl(1, k) == 2 * Shl(1, k - 1)
  {
    QuarterIndex(k, 4 + m);
    assert (4 + m) % 4 == m;
    ShlScale(4 + m, k);
  }

  /** bucket and bucket_lo fit together: i is at most the bucket of d just when bucket_lo(i) is at most d. */
  lemma BucketLoFits(i: nat, d: nat)
    ensures i <= Bucket(d) <==> BucketLo(i) <= d
  {
    BucketBetween(d);
    if i < Bucket(d) {
      LoIncreases(i, Bucket(d));
    }
    if i > Bucket(d) + 1 {
      LoIncreases(Bucket(d) + 1, i);
    }
  }

  lemma BucketMonotone(d: nat, e: nat)
    requires d <= e
    ensures Bucket(d) <= Bucket(e)
  {
    BucketBetween(d);
    BucketLoFits(Bucket(d), e);
  }

  lemma BucketInverse(i: nat)
    ensures Bucket(BucketLo(i)) == i
  {
    BucketLoFits(i, BucketLo(i));
    BucketLoFits(i + 1, BucketLo(i));
    NextLo(i);
  }

  /** The bucket of a 64-bit sample is at most 251, so it indexes the array of 256. */
  lemma BucketRange(d: nat)
    requires d < 0x1_0000_0000_0000_0000
    ensures Bucket(d) <= 251
  {
    BucketLoFits(252, d);
    assert BucketLo(252) == Shl(4, 62);
    ShlPower();
  }

  lemma {:induction false} ShlTwice(x: nat, j: nat, k: nat)
    ensures Shl(Shl(x, j), k) == Shl(x, j + k)
  {
    if k > 0 {
      ShlTwice(x, j, k - 1);
    }
  }

  lemma {:induction false} ShlScale(x: nat, k: nat)
    ensures Shl(x, k) == x * Shl(1, k)
  {
    if k > 0 {
      ShlScale(x, k - 1);
    }
  }

  lemma ShlSixteen()
    ensures Shl(4, 14) == 0x1_0000 && Shl(1, 16) == 0x1_0000
  {
    assert Shl(1, 8) == 256 && Shl(1, 14) == 0x4000;
    assert Shl(1, 16) == 0x1_0000;
    ShlScale(4, 14);
  }

  lemma ShlPower()
    ensures Shl(4, 62) == 0x1_0000_0000_0000_0000
  {
    hide Shl;
    ShlSixteen();
    ShlTwice(4, 14, 16);
    ShlScale(0x1_0000, 16);
    ShlTwice(4, 30, 16);
    ShlScale(0x1_0000_0000, 16);
    ShlTwice(4, 46, 16);
    ShlScale(0x1_0000_0000_0000, 16);
  }

  /** The lower bound is exact below 4 and never more than 20 percent below the sample otherwise. */
  lemma Accuracy(d: nat)
    ensures d < 4 ==> BucketLo(Bucket(d)) == d
    ensures d >= 4 ==> BucketLo(Bucket(d)) <= d && 4 * d < 5 * BucketLo(Bucket(d))
  {
    BucketBetween(d);
    if d >= 4 {
      var i := Bucket(d);
      BucketLoFits(4, d);
      NextLo(i);
      var x, k := 4 + (i - 4) % 4, (i - 4) / 4;
      ShlAdd(x, 1, k);
      ShlMonotone(4, x, k);
      ShlAdd(2, 2, k);
      ShlAdd(1, 1, k);
    }
  }
}
