/**
 The inner `exclude(ip, exclude)` of `exclude_ip` in wg-reconf.py and the
 library routine it calls, `IPv4Network.address_exclude`: the networks left
 of `n` once the network `x` is taken out of it.
 */
module Exclusion {
  import opened Cidr

  /** The address `a` lies in one of the networks `rs`. */
  predicate Covers(rs: seq<Net>, a: nat)
  {
    exists i :: 0 <= i < |rs| && Contains(rs[i], a)
  }

  /** No two of the networks `rs` share an address. */
  predicate PairwiseDisjoint(rs: seq<Net>)
  {
    forall i, j :: 0 <= i < j < |rs| ==> Disjoint(rs[i], rs[j])
  }

  /** `x` is a valid network lying inside the valid network `n`, and is not `n` itself. */
  predicate StrictlyInside(x: Net, n: Net)
  {
    Valid(n) && Valid(x) && SubnetOf(x, n) && x != n
  }

  /** Number of addresses in the networks `rs`, counted with repetition. */
  function TotalSize(rs: seq<Net>): nat
  {
    if rs == [] then 0 else Size(rs[0]) + TotalSize(rs[1..])
  }

  /**
   `address_exclude` past its guards, for `x` strictly inside `n`: split the
   current network into its halves; if one half is `x`, emit the other and
   stop; otherwise emit the half without `x` and carry on in the half with it.
   */
  function SplitOff(n: Net, x: Net): (r: seq<Net>)
    requires StrictlyInside(x, n)
    ensures |r| == x.prefix - n.prefix
    decreases 32 - n.prefix
  {
    InsideAHalf(x, n);
    Halves(n);
    var lo, hi := Lower(n), Upper(n);
    if lo == x then [hi]
    else if hi == x then [lo]
    else if SubnetOf(x, lo) then [hi] + SplitOff(lo, x)
    else [lo] + SplitOff(hi, x)
  }

  /**
   `exclude(n, x)`: when `n` is a supernet of `x` (which holds for `x == n`
   too) what `address_exclude` yields for `x` in `n`, else `n` alone.
   Every network left is a valid part of `n` that is either clear of `x` or
   strictly inside it.
   */
  function Exclude(n: Net, x: Net): (r: seq<Net>)
    requires Valid(n) && Valid(x)
    ensures forall k :: 0 <= k < |r| ==> Valid(r[k]) && SubnetOf(r[k], n)
    ensures forall k :: 0 <= k < |r| ==> Disjoint(r[k], x) || (SubnetOf(r[k], x) && r[k] != x)
  {
    if !SubnetOf(x, n) then
      Laminar(n, x);
      [n]
    else if x == n then []
    else SplitOffShape(n, x); SplitOff(n, x)
  }

  // ---------------------------------------------------------------------------
  // Pass-through cases

  /** A network clear of `x`, or strictly inside it, is kept as it is. */
  lemma ExcludePassThrough(n: Net, x: Net)
    requires Valid(n) && Valid(x)
    requires Disjoint(n, x) || (SubnetOf(n, x) && n != x)
    ensures Exclude(n, x) == [n]
  {
    if SubnetOf(x, n) && SubnetOf(n, x) {
      SubnetAntisymmetric(x, n);
    }
  }

  /** Excluding a network from itself leaves nothing. */
  lemma ExcludeSelf(n: Net)
    requires Valid(n)
    ensures Exclude(n, n) == []
  {
  }

  // ---------------------------------------------------------------------------
  // The split of a network around a strict subnet

  lemma CoversCons(m: Net, rs: seq<Net>, a: nat)
    ensures Covers([m] + rs, a) <==> Contains(m, a) || Covers(rs, a)
  {
    if Contains(m, a) {
      assert ([m] + rs)[0] == m;
    }
    if Covers(rs, a) {
      var i :| 0 <= i < |rs| && Contains(rs[i], a);
      assert ([m] + rs)[i + 1] == rs[i];
    }
    if Covers([m] + rs, a) {
      var i :| 0 <= i < |[m] + rs| && Contains(([m] + rs)[i], a);
      if i > 0 {
        assert ([m] + rs)[i] == rs[i - 1];
      }
    }
  }

  /** The networks split off `n` cover exactly the addresses of `n` outside `x`. */
  lemma {:induction false} SplitOffCovers(n: Net, x: Net, a: nat)
    requires StrictlyInside(x, n)
    ensures Covers(SplitOff(n, x), a) <==> Contains(n, a) && !Contains(x, a)
    decreases 32 - n.prefix
  {
    InsideAHalf(x, n);
    Halves(n);
    var lo, hi := Lower(n), Upper(n);
    if lo == x {
      CoversCons(hi, [], a);
    } else if hi == x {
      CoversCons(lo, [], a);
    } else if SubnetOf(x, lo) {
      SplitOffCovers(lo, x, a);
      CoversCons(hi, SplitOff(lo, x), a);
    } else {
      SplitOffCovers(hi, x, a);
      CoversCons(lo, SplitOff(hi, x), a);
    }
  }

  /** The k-th network split off `n` has prefix length `n.prefix + k + 1`. */
  lemma {:induction false} SplitOffPrefixes(n: Net, x: Net)
    requires StrictlyInside(x, n)
    ensures forall k :: 0 <= k < |SplitOff(n, x)| ==> SplitOff(n, x)[k].prefix == n.prefix + k + 1
    decreases 32 - n.prefix
  {
    InsideAHalf(x, n);
    if Lower(n) != x && Upper(n) != x {
      var half, other := SplitOffStep(n, x);
      SplitOffPrefixes(half, x);
      var r, rest := SplitOff(n, x), SplitOff(half, x);
      forall k | 1 <= k < |r|
        ensures r[k].prefix == n.prefix + k + 1
      {
        assert r[k] == rest[k - 1];
      }
    }
  }

  /** Every network split off `n` is a valid part of `n` clear of `x`. */
  lemma {:induction false} SplitOffShape(n: Net, x: Net)
    requires StrictlyInside(x, n)
    ensures forall k :: 0 <= k < |SplitOff(n, x)| ==>
              Valid(SplitOff(n, x)[k]) && SubnetOf(SplitOff(n, x)[k], n) && Disjoint(SplitOff(n, x)[k], x)
    decreases 32 - n.prefix, 1
  {
    InsideAHalf(x, n);
    if Lower(n) != x && Upper(n) != x {
      SplitOffShapeStep(n, x);
    } else {
      Halves(n);
    }
  }

  /** The inductive step of `SplitOffShape`, when neither half of `n` is `x`. */
  lemma {:induction false} SplitOffShapeStep(n: Net, x: Net)
    requires StrictlyInside(x, n) && n.prefix < 32 && Lower(n) != x && Upper(n) != x
    ensures forall k :: 0 <= k < |SplitOff(n, x)| ==>
              Valid(SplitOff(n, x)[k]) && SubnetOf(SplitOff(n, x)[k], n) && Disjoint(SplitOff(n, x)[k], x)
    decreases 32 - n.prefix, 0
  {
    var half, other := SplitOffStep(n, x);
    SplitOffShape(half, x);
    var r, rest := SplitOff(n, x), SplitOff(half, x);
    forall k | 1 <= k < |r|
      ensures Valid(r[k]) && SubnetOf(r[k], n) && Disjoint(r[k], x)
    {
      assert r[k] == rest[k - 1];
    }
  }

  /**
   One step of the split when neither half is `x`: the half without `x`
   comes first, then the split of the half that holds it.
   */
  lemma SplitOffStep(n: Net, x: Net) returns (half: Net, other: Net)
    requires StrictlyInside(x, n)
    requires n.prefix < 32 && Lower(n) != x && Upper(n) != x
    ensures (half, other) == (Lower(n), Upper(n)) || (half, other) == (Upper(n), Lower(n))
    ensures StrictlyInside(x, half) && Valid(other) && Disjoint(half, other) && Disjoint(other, x)
    ensures SubnetOf(half, n) && SubnetOf(other, n)
    ensures half.prefix == n.prefix + 1 && other.prefix == n.prefix + 1
    ensures Supernet(x, half.prefix) == half && other == Sibling(half)
    ensures SplitOff(n, x) == [other] + SplitOff(half, x)
  {
    InsideAHalf(x, n);
    Halves(n);
    SiblingOfHalves(n);
    if SubnetOf(x, Lower(n)) {
      half, other := Lower(n), Upper(n);
    } else {
      half, other := Upper(n), Lower(n);
    }
    SupernetOfContaining(x, half);
  }

  /** A network clear of every network of a pairwise disjoint list can head it. */
  lemma ConsPairwiseDisjoint(m: Net, rs: seq<Net>)
    requires PairwiseDisjoint(rs)
    requires forall k :: 0 <= k < |rs| ==> Disjoint(m, rs[k])
    ensures PairwiseDisjoint([m] + rs)
  {
    forall i, j | 0 <= i < j < |[m] + rs|
      ensures Disjoint(([m] + rs)[i], ([m] + rs)[j])
    {
      if i > 0 {
        assert ([m] + rs)[i] == rs[i - 1];
      }
      assert ([m] + rs)[j] == rs[j - 1];
    }
  }

  /** The networks split off `n` are pairwise disjoint. */
  lemma {:induction false} SplitOffPairwiseDisjoint(n: Net, x: Net)
    requires StrictlyInside(x, n)
    ensures PairwiseDisjoint(SplitOff(n, x))
    decreases 32 - n.prefix
  {
    InsideAHalf(x, n);
    if Lower(n) != x && Upper(n) != x {
      var half, other := SplitOffStep(n, x);
      SplitOffPairwiseDisjoint(half, x);
      SplitOffShape(half, x);
      var rest := SplitOff(half, x);
      assert forall k :: 0 <= k < |rest| ==> SubnetOf(rest[k], half);
      ConsPairwiseDisjoint(other, rest);
    }
  }

  /** The sizes of the networks split off `n` add up to the size of `n` less the size of `x`. */
  lemma {:induction false} SplitOffTotalSize(n: Net, x: Net)
    requires StrictlyInside(x, n)
    ensures TotalSize(SplitOff(n, x)) + Size(x) == Size(n)
    decreases 32 - n.prefix
  {
    InsideAHalf(x, n);
    Halves(n);
    var lo, hi := Lower(n), Upper(n);
    if lo == x {
      assert SplitOff(n, x) == [hi];
      assert TotalSize([hi]) == Size(hi) + TotalSize([]);
    } else if hi == x {
      assert SplitOff(n, x) == [lo];
      assert TotalSize([lo]) == Size(lo) + TotalSize([]);
    } else {
      var (half, other) := if SubnetOf(x, lo) then (lo, hi) else (hi, lo);
      SplitOffTotalSize(half, x);
      var rest := SplitOff(half, x);
      assert SplitOff(n, x) == [other] + rest;
      assert ([other] + rest)[1..] == rest;
    }
  }

  /**
   The k-th network split off `n` is the sibling of the network with prefix
   `n.prefix + k + 1` around `x`: the results come out widest first, each the
   half that does not hold `x` at its level.
   */
  lemma {:induction false} SplitOffSiblings(n: Net, x: Net)
    requires StrictlyInside(x, n)
    ensures forall k :: 0 <= k < |SplitOff(n, x)| ==>
              SplitOff(n, x)[k] == Sibling(Supernet(x, n.prefix + k + 1))
    decreases 32 - n.prefix, 1
  {
    InsideAHalf(x, n);
    if Lower(n) == x || Upper(n) == x {
      SplitOffLast(n, x);
    } else {
      SplitOffSiblingsStep(n, x);
    }
  }

  /** The inductive step of `SplitOffSiblings`, when neither half of `n` is `x`. */
  lemma {:induction false} SplitOffSiblingsStep(n: Net, x: Net)
    requires StrictlyInside(x, n) && n.prefix < 32 && Lower(n) != x && Upper(n) != x
    ensures forall k :: 0 <= k < |SplitOff(n, x)| ==>
              SplitOff(n, x)[k] == Sibling(Supernet(x, n.prefix + k + 1))
    decreases 32 - n.prefix, 0
  {
    var half, other := SplitOffStep(n, x);
    SplitOffSiblings(half, x);
    var r, rest := SplitOff(n, x), SplitOff(half, x);
    assert r[0] == Sibling(Supernet(x, n.prefix + 0 + 1));
    forall k | 1 <= k < |r|
      ensures r[k] == Sibling(Supernet(x, n.prefix + k + 1))
    {
      assert r[k] == rest[k - 1];
    }
  }

  /** When `x` is a half of `n`, the split is the other half alone, `x`'s sibling. */
  lemma SplitOffLast(n: Net, x: Net)
    requires StrictlyInside(x, n)
    requires n.prefix < 32 && (Lower(n) == x || Upper(n) == x)
    ensures x.prefix == n.prefix + 1
    ensures SplitOff(n, x) == [Sibling(Supernet(x, n.prefix + 1))]
  {
    Halves(n);
    SiblingOfHalves(n);
    SupernetOfContaining(x, x);
  }

  // ---------------------------------------------------------------------------
  // Exclusion as a whole

  /**
   When `x` lies strictly inside `n`, the result is the minimal split of
   `n` minus `x`: `x.prefix - n.prefix` valid, pairwise disjoint networks
   inside `n` and clear of `x`, the k-th with prefix `n.prefix + k + 1`,
   covering exactly the addresses of `n` outside `x`.
   */
  lemma ExcludeStrictSubnet(n: Net, x: Net)
    requires StrictlyInside(x, n)
    ensures var r := Exclude(n, x);
      && |r| == x.prefix - n.prefix
      && (forall k :: 0 <= k < |r| ==> r[k].prefix == n.prefix + k + 1)
      && (forall k :: 0 <= k < |r| ==> Valid(r[k]) && SubnetOf(r[k], n) && Disjoint(r[k], x))
      && PairwiseDisjoint(r)
      && (forall a :: Covers(r, a) <==> Contains(n, a) && !Contains(x, a))
      && TotalSize(r) + Size(x) == Size(n)
  {
    SplitOffPrefixes(n, x);
    SplitOffShape(n, x);
    SplitOffPairwiseDisjoint(n, x);
    SplitOffTotalSize(n, x);
    forall a {
      SplitOffCovers(n, x, a);
    }
  }

  /** The emission order of `address_exclude`: widest remainder first, each the sibling of the level's half around `x`. */
  lemma ExcludeOrder(n: Net, x: Net)
    requires StrictlyInside(x, n)
    ensures var r := Exclude(n, x);
      forall k :: 0 <= k < |r| ==> r[k] == Sibling(Supernet(x, n.prefix + k + 1))
  {
    SplitOffSiblings(n, x);
  }

  /** 10.0.0.0/24 less 10.0.0.64/26 is 10.0.0.128/25 followed by 10.0.0.0/26. */
  lemma ExcludeOrderExample()
    ensures Exclude(Net(0x0A00_0000, 24), Net(0x0A00_0040, 26)) == [Net(0x0A00_0080, 25), Net(0x0A00_0000, 26)]
  {
    var n, x := Net(0x0A00_0000, 24), Net(0x0A00_0040, 26);
    assert Valid(n) && Valid(x);
    ExcludeStrictSubnet(n, x);
    ExcludeOrder(n, x);
    var r := Exclude(n, x);
    assert r[0] == Sibling(Supernet(x, 25));
    assert r[1] == Sibling(Supernet(x, 26));
  }

  /**
   Whatever the relation of `x` to `n`, the result covers the addresses of
   `n`, less those of `x` exactly when `x` is a subnet of `n`.
   */
  lemma ExcludeCovers(n: Net, x: Net, a: nat)
    requires Valid(n) && Valid(x)
    ensures Covers(Exclude(n, x), a) <==> Contains(n, a) && !(SubnetOf(x, n) && Contains(x, a))
  {
    if !SubnetOf(x, n) {
      CoversCons(n, [], a);
    } else if x != n {
      SplitOffCovers(n, x, a);
    }
  }

  /** Excluding `x` again from any network a first exclusion left changes nothing. */
  lemma ExcludeFixpoint(n: Net, x: Net)
    requires Valid(n) && Valid(x)
    ensures forall k :: 0 <= k < |Exclude(n, x)| ==> Exclude(Exclude(n, x)[k], x) == [Exclude(n, x)[k]]
  {
    var r := Exclude(n, x);
    forall k | 0 <= k < |r|
      ensures Exclude(r[k], x) == [r[k]]
    {
      ExcludePassThrough(r[k], x);
    }
  }
}
