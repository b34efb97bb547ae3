/** How key and child arrays may be cut and joined without losing order, key
    ranges or path weights: the algebra behind the four rebalancing steps. */
module AbFans {
  import opened AbNodes

  lemma SpliceKeys(keys: seq<int>, sp: Span, ix: nat, lkeys: seq<int>)
    requires Sorted(keys) && Sorted(lkeys) && ix <= |keys|
    requires forall i :: 0 <= i < |keys| ==> sp.Inside(keys[i])
    requires forall i :: 0 <= i < |lkeys| ==> Slot(keys, sp, ix).Inside(lkeys[i])
    ensures var ks := keys[..ix] + lkeys + keys[ix..];
            Sorted(ks) && forall i :: 0 <= i < |ks| ==> sp.Inside(ks[i])
  {
    var ks, n := keys[..ix] + lkeys + keys[ix..], |lkeys|;
    assert forall i :: 0 <= i < ix ==> ks[i] == keys[i];
    assert forall i :: ix <= i < ix + n ==> ks[i] == lkeys[i - ix];
    assert forall i :: ix + n <= i < |ks| ==> ks[i] == keys[i - n];
    forall i | 0 <= i < n
      ensures sp.Inside(lkeys[i])
      ensures forall j :: 0 <= j < ix ==> keys[j] < lkeys[i]
      ensures forall j :: ix <= j < |keys| ==> lkeys[i] < keys[j]
    {
      assert Slot(keys, sp, ix).Inside(lkeys[i]);
    }
  }

  /** Replacing one child by its own (weight-0) contents. */
  lemma Splice(d: Degree, keys: seq<int>, kids: seq<Node>, sp: Span, ix: nat,
               lkeys: seq<int>, lkids: seq<Node>)
    requires Fan(d, keys, kids, sp) && ix < |kids|
    requires Fan(d, lkeys, lkids, Slot(keys, sp, ix))
    ensures Fan(d, keys[..ix] + lkeys + keys[ix..], kids[..ix] + lkids + kids[ix + 1..], sp)
  {
    SpliceKeys(keys, sp, ix, lkeys);
    var ks, cs := keys[..ix] + lkeys + keys[ix..], kids[..ix] + lkids + kids[ix + 1..];
    forall i | 0 <= i < |cs| ensures Wf(d, cs[i], Slot(ks, sp, i)) {
      SpliceSlot(keys, kids, sp, ix, lkeys, lkids, i);
    }
  }

  /** Every child of the spliced node is an old child or grandchild, in its old slot. */
  lemma SpliceSlot(keys: seq<int>, kids: seq<Node>, sp: Span, ix: nat,
                   lkeys: seq<int>, lkids: seq<Node>, i: nat)
    requires |kids| == |keys| + 1 && |lkids| == |lkeys| + 1 && ix < |kids|
    requires i < |kids| + |lkeys|
    ensures var ks, cs := keys[..ix] + lkeys + keys[ix..], kids[..ix] + lkids + kids[ix + 1..];
            var n := |lkeys|;
            && |cs| == |kids| + n && |ks| == |keys| + n
            && (i < ix ==> cs[i] == kids[i] && Slot(ks, sp, i) == Slot(keys, sp, i))
            && (ix <= i <= ix + n ==> cs[i] == lkids[i - ix] && Slot(ks, sp, i) == Slot(lkeys, Slot(keys, sp, ix), i - ix))
            && (ix + n < i ==> cs[i] == kids[i - n] && Slot(ks, sp, i) == Slot(keys, sp, i - n))
  {
  }

  /** Cutting between children m-1 and m; the key between them moves up. */
  lemma Cut(d: Degree, keys: seq<int>, kids: seq<Node>, sp: Span, m: nat)
    requires Fan(d, keys, kids, sp) && 1 <= m < |kids|
    ensures sp.Inside(keys[m - 1])
    ensures Fan(d, keys[..m - 1], kids[..m], sp.(hi := Some(keys[m - 1])))
    ensures Fan(d, keys[m..], kids[m..], sp.(lo := Some(keys[m - 1])))
  {
    var l, r := sp.(hi := Some(keys[m - 1])), sp.(lo := Some(keys[m - 1]));
    forall i | 0 <= i < m ensures Wf(d, kids[..m][i], Slot(keys[..m - 1], l, i)) {
      assert Slot(keys[..m - 1], l, i) == Slot(keys, sp, i);
    }
    forall i | 0 <= i < |kids| - m ensures Wf(d, kids[m..][i], Slot(keys[m..], r, i)) {
      assert kids[m..][i] == kids[m + i];
      assert Slot(keys[m..], r, i) == Slot(keys, sp, m + i);
    }
  }

  /** Joining two neighbours; the key between them comes down. */
  lemma Join(d: Degree, lkeys: seq<int>, lkids: seq<Node>, k: int,
             rkeys: seq<int>, rkids: seq<Node>, sp: Span)
    requires sp.Inside(k)
    requires Fan(d, lkeys, lkids, sp.(hi := Some(k)))
    requires Fan(d, rkeys, rkids, sp.(lo := Some(k)))
    ensures Fan(d, lkeys + [k] + rkeys, lkids + rkids, sp)
  {
    hide Wf;
    var ks, cs, n := lkeys + [k] + rkeys, lkids + rkids, |lkids|;
    JoinKeys(lkeys, k, rkeys, sp);
    hide Sorted;
    forall i | 0 <= i < |cs| ensures Wf(d, cs[i], Slot(ks, sp, i)) {
      if i < n {
        assert Slot(ks, sp, i) == Slot(lkeys, sp.(hi := Some(k)), i);
      } else {
        assert cs[i] == rkids[i - n];
        assert Slot(ks, sp, i) == Slot(rkeys, sp.(lo := Some(k)), i - n);
      }
    }
  }

  lemma JoinKeys(lkeys: seq<int>, k: int, rkeys: seq<int>, sp: Span)
    requires sp.Inside(k) && Sorted(lkeys) && Sorted(rkeys)
    requires forall i :: 0 <= i < |lkeys| ==> sp.(hi := Some(k)).Inside(lkeys[i])
    requires forall i :: 0 <= i < |rkeys| ==> sp.(lo := Some(k)).Inside(rkeys[i])
    ensures var ks := lkeys + [k] + rkeys;
            Sorted(ks) && forall i :: 0 <= i < |ks| ==> sp.Inside(ks[i])
  {
    var ks, n := lkeys + [k] + rkeys, |lkeys| + 1;
    assert forall i :: 0 <= i < |lkeys| ==> ks[i] == lkeys[i];
    assert forall i :: n <= i < |ks| ==> ks[i] == rkeys[i - n];
  }

  lemma Two(d: Degree, k: int, x: Node, y: Node, sp: Span)
    requires sp.Inside(k) && Wf(d, x, sp.(hi := Some(k))) && Wf(d, y, sp.(lo := Some(k)))
    ensures Fan(d, [k], [x, y], sp)
  {
    assert Slot([k], sp, 0) == sp.(hi := Some(k));
    assert Slot([k], sp, 1) == sp.(lo := Some(k));
  }

  /** The span of children i and i+1 taken together. */
  function Both(keys: seq<int>, sp: Span, i: nat): Span
    requires i < |keys|
  {
    Slot(keys, sp, i).(hi := Slot(keys, sp, i + 1).hi)
  }

  /** One child in place of children i and i+1. */
  lemma Merge(d: Degree, keys: seq<int>, kids: seq<Node>, sp: Span, i: nat, x: Node)
    requires Fan(d, keys, kids, sp) && i < |keys|
    requires Wf(d, x, Both(keys, sp, i))
    ensures Fan(d, keys[..i] + keys[i + 1..], kids[..i] + [x] + kids[i + 2..], sp)
  {
    var ks, cs := keys[..i] + keys[i + 1..], kids[..i] + [x] + kids[i + 2..];
    assert forall j :: i < j < |keys| ==> ks[j - 1] == keys[j];
    forall j | 0 <= j < |cs| ensures Wf(d, cs[j], Slot(ks, sp, j)) {
      if j < i {
        assert Slot(ks, sp, j) == Slot(keys, sp, j);
      } else if j == i {
        assert Slot(ks, sp, j) == Both(keys, sp, i);
      } else {
        assert cs[j] == kids[j + 1];
        assert Slot(ks, sp, j) == Slot(keys, sp, j + 1);
      }
    }
  }

  /** New children i and i+1 around a new key between them. */
  lemma Reseat(d: Degree, keys: seq<int>, kids: seq<Node>, sp: Span, i: nat, k: int, x: Node, y: Node)
    requires Fan(d, keys, kids, sp) && i < |keys|
    requires Both(keys, sp, i).Inside(k)
    requires Wf(d, x, Both(keys, sp, i).(hi := Some(k)))
    requires Wf(d, y, Both(keys, sp, i).(lo := Some(k)))
    ensures Fan(d, keys[i := k], kids[i := x][i + 1 := y], sp)
  {
    var ks, cs := keys[i := k], kids[i := x][i + 1 := y];
    assert i > 0 ==> keys[i - 1] < k;
    assert i + 1 < |keys| ==> k < keys[i + 1];
    forall j | 0 <= j < |cs| ensures Wf(d, cs[j], Slot(ks, sp, j)) {
      if j == i {
        assert Slot(ks, sp, j) == Both(keys, sp, i).(hi := Some(k));
      } else if j == i + 1 {
        assert Slot(ks, sp, j) == Both(keys, sp, i).(lo := Some(k));
      } else {
        assert Slot(ks, sp, j) == Slot(keys, sp, j);
      }
    }
  }

  // ------------------------------------------------------------ leaf contents

  lemma PairsCut(d: Degree, keys: seq<int>, vals: seq<int>, sp: Span, m: nat)
    requires Pairs(d, keys, vals, sp) && 1 <= m < |keys|
    ensures sp.Inside(keys[m])
    ensures Pairs(d, keys[..m], vals[..m], sp.(hi := Some(keys[m])))
    ensures Pairs(d, keys[m..], vals[m..], sp.(lo := Some(keys[m])))
  {
    assert keys[0] < keys[m];
  }

  lemma PairsJoin(d: Degree, lkeys: seq<int>, lvals: seq<int>, k: int,
                  rkeys: seq<int>, rvals: seq<int>, sp: Span)
    requires sp.Inside(k)
    requires Pairs(d, lkeys, lvals, sp.(hi := Some(k)))
    requires Pairs(d, rkeys, rvals, sp.(lo := Some(k)))
    ensures Pairs(d, lkeys + rkeys, lvals + rvals, sp)
  {
    var ks, n := lkeys + rkeys, |lkeys|;
    assert forall i :: n <= i < |ks| ==> ks[i] == rkeys[i - n];
  }
}
