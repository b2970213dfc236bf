/**
 IPv4 networks in CIDR prefix notation (section 3.1 of RFC 4632): a base
 address and a prefix length, the base having every host bit zero. This is the
 value Python's `ipaddress.IPv4Network` carries (`network_address`,
 `prefixlen`); the module gives its address range, its two halves
 (`subnets()`), the subnet relation and the facts about alignment that the
 exclusion algorithm relies on.

 Alignment is stated bit by bit (`LowBitsZero`), as the library tests it with
 a mask, so that every proof here stays within linear arithmetic.
 */
module Cidr {

  /** Number of addresses in the IPv4 address space. */
  const AddressSpace: nat := 0x1_0000_0000

  /** A prefix length of an IPv4 network. */
  type Prefix = p: nat | p <= 32

  /** 2^k */
  function Pow2(k: nat): (r: nat)
    ensures r >= 1
  {
    if k == 0 then 1 else 2 * Pow2(k - 1)
  }

  /** The lowest `k` bits of `b` are zero. */
  predicate LowBitsZero(b: nat, k: nat)
  {
    k == 0 || (b % 2 == 0 && LowBitsZero(b / 2, k - 1))
  }

  /** `b` with its lowest `k` bits cleared. */
  function ClearLowBits(b: nat, k: nat): nat
  {
    if k == 0 then b else 2 * ClearLowBits(b / 2, k - 1)
  }

  /** Number of host bits of a network with prefix length `p`. */
  function HostBits(p: Prefix): nat
  {
    32 - p
  }

  datatype Net = Net(base: nat, prefix: Prefix)

  /** Number of addresses in `n`. */
  function Size(n: Net): nat
  {
    Pow2(HostBits(n.prefix))
  }

  /** A well-formed IPv4 network: its base is an address and has no host bit set. */
  predicate Valid(n: Net)
  {
    n.base < AddressSpace && LowBitsZero(n.base, HostBits(n.prefix))
  }

  /** The address `a` lies in `n`. */
  predicate Contains(n: Net, a: nat)
  {
    n.base <= a < n.base + Size(n)
  }

  /** Python's `x.subnet_of(n)`: the first and last addresses of `x` lie within `n`. */
  predicate SubnetOf(x: Net, n: Net)
  {
    n.base <= x.base && x.base + Size(x) - 1 <= n.base + Size(n) - 1
  }

  /** The two networks share no address. */
  predicate Disjoint(m: Net, n: Net)
  {
    m.base + Size(m) <= n.base || n.base + Size(n) <= m.base
  }

  /** The first of the two halves produced by `subnets()`. */
  function Lower(n: Net): Net
    requires n.prefix < 32
  {
    Net(n.base, n.prefix + 1)
  }

  /** The second of the two halves produced by `subnets()`. */
  function Upper(n: Net): Net
    requires n.prefix < 32
  {
    Net(n.base + Pow2(HostBits(n.prefix + 1)), n.prefix + 1)
  }

  /** The network with prefix length `p` around the base of `x`, as `x.supernet(new_prefix=p)`. */
  function Supernet(x: Net, p: Prefix): Net
  {
    Net(ClearLowBits(x.base, HostBits(p)), p)
  }

  /** The other half of the network of which `m` is one half. */
  function Sibling(m: Net): Net
    requires m.prefix >= 1
  {
    var parent := Supernet(m, m.prefix - 1);
    if m == Lower(parent) then Upper(parent) else Lower(parent)
  }

  // ---------------------------------------------------------------------------
  // Arithmetic of aligned numbers

  lemma Pow2At32()
    ensures Pow2(32) == AddressSpace
  {
    assert Pow2(0) == 1;
    assert Pow2(1) == 2;
    assert Pow2(2) == 4;
    assert Pow2(3) == 8;
    assert Pow2(4) == 16;
    assert Pow2(5) == 32;
    assert Pow2(6) == 64;
    assert Pow2(7) == 128;
    assert Pow2(8) == 256;
    assert Pow2(16) == 65536 by {
      Pow2Add(8, 8);
    }
    Pow2Add(16, 16);
  }

  lemma {:induction false} Pow2Add(a: nat, b: nat)
    ensures Pow2(a + b) == Pow2(a) * Pow2(b)
  {
    if a > 0 {
      Pow2Add(a - 1, b);
    }
  }

  lemma {:induction false} Pow2Strict(a: nat, b: nat)
    requires a < b
    ensures Pow2(a) < Pow2(b)
  {
    if a + 1 < b {
      Pow2Strict(a, b - 1);
    }
  }

  /** Clearing fewer bits keeps the number aligned. */
  lemma {:induction false} LowBitsZeroFewer(b: nat, k: nat, j: nat)
    requires LowBitsZero(b, k) && j <= k
    ensures LowBitsZero(b, j)
  {
    if j > 0 {
      LowBitsZeroFewer(b / 2, k - 1, j - 1);
    }
  }

  /** Adding 2^k to a number with `k` zero low bits keeps them zero. */
  lemma {:induction false} LowBitsZeroStep(b: nat, k: nat)
    requires LowBitsZero(b, k)
    ensures LowBitsZero(b + Pow2(k), k)
  {
    if k > 0 {
      LowBitsZeroStep(b / 2, k - 1);
      assert (b + Pow2(k)) / 2 == b / 2 + Pow2(k - 1);
    }
  }

  /** 2^j has its lowest `j` bits zero. */
  lemma {:induction false} Pow2LowBitsZero(j: nat, k: nat)
    requires k <= j
    ensures LowBitsZero(Pow2(j), k)
  {
    if k > 0 {
      Pow2LowBitsZero(j - 1, k - 1);
    }
  }

  /** Two numbers with `k` zero low bits are equal or at least 2^k apart. */
  lemma {:induction false} NoStraddle(b: nat, m: nat, k: nat)
    requires LowBitsZero(b, k) && LowBitsZero(m, k) && b < m
    ensures b + Pow2(k) <= m
  {
    if k > 0 {
      NoStraddle(b / 2, m / 2, k - 1);
    }
  }

  /** `ClearLowBits(b, k)` is the largest number at most `b` whose lowest `k` bits are zero. */
  lemma {:induction false} ClearLowBitsBounds(b: nat, k: nat)
    ensures LowBitsZero(ClearLowBits(b, k), k)
    ensures ClearLowBits(b, k) <= b < ClearLowBits(b, k) + Pow2(k)
  {
    if k > 0 {
      ClearLowBitsBounds(b / 2, k - 1);
    }
  }

  /** The aligned block of size 2^k around `b` is unique. */
  lemma ClearLowBitsUnique(b: nat, m: nat, k: nat)
    requires LowBitsZero(m, k) && m <= b < m + Pow2(k)
    ensures ClearLowBits(b, k) == m
  {
    var c := ClearLowBits(b, k);
    ClearLowBitsBounds(b, k);
    if c < m {
      NoStraddle(c, m, k);
    } else if m < c {
      NoStraddle(m, c, k);
    }
  }

  // ---------------------------------------------------------------------------
  // Facts about networks

  /** A valid network ends inside the address space. */
  lemma ValidEnd(n: Net)
    requires Valid(n)
    ensures n.base + Size(n) <= AddressSpace
  {
    Pow2At32();
    Pow2LowBitsZero(32, HostBits(n.prefix));
    NoStraddle(n.base, AddressSpace, HostBits(n.prefix));
  }

  /** `subnets()` splits a valid network into two valid, adjacent halves of equal size. */
  lemma Halves(n: Net)
    requires Valid(n) && n.prefix < 32
    ensures Valid(Lower(n)) && Valid(Upper(n))
    ensures Size(Lower(n)) == Size(Upper(n)) && Size(n) == 2 * Size(Lower(n))
    ensures Lower(n).base == n.base && Upper(n).base == n.base + Size(Lower(n))
    ensures Lower(n) != Upper(n)
  {
    var k := HostBits(n.prefix);
    ValidEnd(n);
    LowBitsZeroFewer(n.base, k, k - 1);
    LowBitsZeroStep(n.base, k - 1);
  }

  /** The subnet relation is containment of address ranges. */
  lemma SubnetOfMeansContainment(x: Net, n: Net)
    ensures SubnetOf(x, n) <==> forall a :: Contains(x, a) ==> Contains(n, a)
  {
    if forall a :: Contains(x, a) ==> Contains(n, a) {
      assert Contains(x, x.base);
      assert Contains(x, x.base + Size(x) - 1);
    }
  }

  /** Disjointness is the absence of a shared address. */
  lemma DisjointMeansNoSharedAddress(m: Net, n: Net)
    ensures Disjoint(m, n) <==> forall a :: !(Contains(m, a) && Contains(n, a))
  {
    if !Disjoint(m, n) {
      var a := if m.base <= n.base then n.base else m.base;
      assert Contains(m, a) && Contains(n, a);
    }
  }

  /** Two valid networks are nested or disjoint; the longer prefix is the inner one. */
  lemma NestedOrDisjoint(x: Net, n: Net)
    requires Valid(x) && Valid(n) && n.prefix <= x.prefix
    ensures SubnetOf(x, n) || Disjoint(x, n)
  {
    var kx, kn := HostBits(x.prefix), HostBits(n.prefix);
    LowBitsZeroFewer(n.base, kn, kx);
    LowBitsZeroStep(n.base, kn);
    LowBitsZeroFewer(n.base + Size(n), kn, kx);
    if x.base < n.base {
      NoStraddle(x.base, n.base, kx);
    } else if x.base < n.base + Size(n) {
      NoStraddle(x.base, n.base + Size(n), kx);
    }
  }

  /** Any two valid networks are disjoint or one lies inside the other. */
  lemma Laminar(m: Net, n: Net)
    requires Valid(m) && Valid(n)
    ensures Disjoint(m, n) || SubnetOf(m, n) || SubnetOf(n, m)
  {
    if m.prefix <= n.prefix {
      NestedOrDisjoint(n, m);
    } else {
      NestedOrDisjoint(m, n);
    }
  }

  /** A subnet different from its network has a strictly longer prefix. */
  lemma StrictSubnetPrefix(x: Net, n: Net)
    requires Valid(x) && Valid(n) && SubnetOf(x, n) && x != n
    ensures n.prefix < x.prefix
  {
    if x.prefix < n.prefix {
      Pow2Strict(HostBits(n.prefix), HostBits(x.prefix));
    }
  }

  /** A network strictly inside `n` lies inside one of its halves. */
  lemma InsideAHalf(x: Net, n: Net)
    requires Valid(x) && Valid(n) && SubnetOf(x, n) && x != n
    ensures n.prefix < 32
    ensures SubnetOf(x, Lower(n)) || SubnetOf(x, Upper(n))
  {
    StrictSubnetPrefix(x, n);
    Halves(n);
    NestedOrDisjoint(x, Lower(n));
    NestedOrDisjoint(x, Upper(n));
  }

  /** Two valid networks each inside the other are the same network. */
  lemma SubnetAntisymmetric(x: Net, n: Net)
    requires Valid(x) && Valid(n) && SubnetOf(x, n) && SubnetOf(n, x)
    ensures x == n
  {
    if x != n {
      StrictSubnetPrefix(x, n);
      StrictSubnetPrefix(n, x);
    }
  }

  /** The supernet of `x` at the prefix of a network containing it is that network. */
  lemma SupernetOfContaining(x: Net, m: Net)
    requires Valid(m) && SubnetOf(x, m)
    ensures Supernet(x, m.prefix) == m
  {
    ClearLowBitsUnique(x.base, m.base, HostBits(m.prefix));
  }

  /** The halves of a network are each other's siblings. */
  lemma SiblingOfHalves(n: Net)
    requires Valid(n) && n.prefix < 32
    ensures Sibling(Lower(n)) == Upper(n) && Sibling(Upper(n)) == Lower(n)
  {
    Halves(n);
    SupernetOfContaining(Lower(n), n);
    SupernetOfContaining(Upper(n), n);
  }
}
