/**
 * IP networks as the Go `net` package represents them, following section 3.1 of
 * RFC 4632 and section 2.3 of RFC 4291: an address is a number of 32 or 128 bits and
 * a prefix is an aligned power-of-two range.
 *
 * `Contains` and `Mask` are written the way `net.IPNet.Contains` and `net.IP.Mask`
 * work (compare masked numbers, fail across families).  `InRange` is the independent
 * reading of a prefix as an interval; the lemmas tie the two together.
 */
module Cidr {
  import opened Wrappers
  import opened Shifts

  datatype Family = IPv4 | IPv6

  function Width(family: Family): nat {
    match family
    case IPv4 => 32
    case IPv6 => 128
  }

  datatype Address = Address(family: Family, value: nat)

  datatype Network = Network(family: Family, ip: nat, bits: nat)

  /** A network whose prefix length fits its family; `ip` need not be the network address. */
  type Prefix = n: Network | n.bits <= Width(n.family) witness Network(IPv4, 0, 0)

  function HostBits(n: Prefix): nat {
    Width(n.family) - n.bits
  }

  function Size(n: Prefix): nat {
    Pow2(HostBits(n))
  }

  /** `ip.Mask(mask)`: nil when the mask is of the other family. */
  function Mask(a: Address, mask: Prefix): Option<Address> {
    if a.family == mask.family then Some(Address(a.family, MaskValue(a.value, HostBits(mask)))) else None
  }

  /** `net.ContainsIP`: nil is contained in nothing. */
  predicate Contains(n: Prefix, a: Option<Address>) {
    && a.Some?
    && a.value.family == n.family
    && MaskValue(a.value.value, HostBits(n)) == MaskValue(n.ip, HostBits(n))
  }

  function IP(n: Prefix): Address {
    Address(n.family, n.ip)
  }

  /** The first address of the range. */
  function First(n: Prefix): nat {
    MaskValue(n.ip, HostBits(n))
  }

  function Last(n: Prefix): nat {
    First(n) + Size(n) - 1
  }

  /** The interval a prefix denotes. */
  predicate InRange(n: Prefix, a: Address) {
    n.family == a.family && First(n) <= a.value <= Last(n)
  }

  ghost predicate SharesAddress(n: Prefix, m: Prefix) {
    exists a :: InRange(n, a) && InRange(m, a)
  }

  ghost predicate Within(inner: Prefix, outer: Prefix) {
    forall a :: InRange(inner, a) ==> InRange(outer, a)
  }

  /** Masked comparison is interval membership. */
  lemma ContainsIsInRange(n: Prefix, a: Address)
    ensures Contains(n, Some(a)) <==> InRange(n, a)
  {
    MaskInterval(a.value, n.ip, HostBits(n));
  }

  /** Two prefixes share an address exactly when the shorter one holds the other's network address. */
  lemma SharesIffShorterContains(n: Prefix, m: Prefix)
    requires n.family == m.family && n.bits <= m.bits
    ensures SharesAddress(n, m) <==> Contains(n, Some(IP(m)))
    ensures SharesAddress(n, m) <==> Within(m, n)
  {
    forall a | InRange(m, a)
      ensures InRange(n, a) <==> Contains(n, Some(IP(m)))
    {
      ContainsIsInRange(m, a);
      ContainsIsInRange(n, a);
      MaskCoarser(a.value, HostBits(m), HostBits(n));
      MaskCoarser(m.ip, HostBits(m), HostBits(n));
    }
    assert InRange(m, Address(m.family, First(m)));
  }

  /** When a prefix of one length holds the network address of a strictly shorter one, they start together. */
  lemma LongerContainsShorter(n: Prefix, m: Prefix)
    requires n.family == m.family && n.bits <= m.bits
    ensures Contains(m, Some(Address(n.family, First(n)))) <==> First(n) == First(m)
  {
    MaskCoarser(n.ip, HostBits(m), HostBits(n));
  }

  // ---------------------------------------------------------------------------
  // The two overlap tests for the cluster range and a service range
  // ---------------------------------------------------------------------------

  /** The guard of filterOutServiceRange: each network address is masked before it is looked up. */
  predicate FilterGuard(cluster: Prefix, service: Prefix) {
    Contains(cluster, Mask(IP(service), cluster)) || Contains(service, Mask(IP(cluster), service))
  }

  /** The guard of occupyServiceCIDR: the network addresses are looked up as they stand. */
  predicate OccupyGuard(cluster: Prefix, service: Prefix) {
    Contains(cluster, Some(IP(service))) || Contains(service, Some(IP(cluster)))
  }

  /** The guard decides overlap, for every pair of networks, of either family. */
  lemma OccupyGuardIsOverlap(cluster: Prefix, service: Prefix)
    ensures OccupyGuard(cluster, service) <==> SharesAddress(cluster, service)
  {
    if cluster.family == service.family {
      if cluster.bits <= service.bits {
        SharesIffShorterContains(cluster, service);
        if Contains(service, Some(IP(cluster))) {
          MaskCoarser(cluster.ip, HostBits(service), HostBits(cluster));
          MaskCoarser(service.ip, HostBits(service), HostBits(cluster));
        }
      } else {
        SharesIffShorterContains(service, cluster);
        if Contains(cluster, Some(IP(service))) {
          MaskCoarser(cluster.ip, HostBits(cluster), HostBits(service));
          MaskCoarser(service.ip, HostBits(cluster), HostBits(service));
        }
        assert SharesAddress(cluster, service) <==> SharesAddress(service, cluster);
      }
    }
  }

  /** The two differently written tests give the same answer, and it is the right one. */
  lemma OverlapTestsAgree(cluster: Prefix, service: Prefix)
    ensures FilterGuard(cluster, service) <==> OccupyGuard(cluster, service)
    ensures FilterGuard(cluster, service) <==> SharesAddress(cluster, service)
  {
    MaskCoarser(service.ip, HostBits(cluster), HostBits(cluster));
    MaskCoarser(cluster.ip, HostBits(service), HostBits(service));
    OccupyGuardIsOverlap(cluster, service);
  }

  // ---------------------------------------------------------------------------
  // isCIDRWithinCIDR
  // ---------------------------------------------------------------------------

  /** isCIDRWithinCIDR on parsed prefixes: `net.ParseCIDR` hands back the masked network. */
  predicate IsCIDRWithinCIDR(outer: Prefix, inner: Prefix) {
    Contains(outer, Some(Address(inner.family, First(inner))))
  }

  lemma WithinNeedsLonger(outer: Prefix, inner: Prefix)
    requires inner.family == outer.family && inner.bits < outer.bits
    ensures !Within(inner, outer)
  {
    Pow2Monotone(HostBits(outer), HostBits(inner));
    assert InRange(inner, Address(inner.family, First(inner)));
    assert InRange(inner, Address(inner.family, Last(inner)));
  }

  /**
   * The test means containment except in one case: a range wider than the subnet
   * that starts at the subnet's own network address is accepted although it sticks out.
   */
  lemma WithinTestExact(outer: Prefix, inner: Prefix)
    ensures (IsCIDRWithinCIDR(outer, inner) <==> Within(inner, outer))
       <==> !(inner.family == outer.family && inner.bits < outer.bits && First(inner) == First(outer))
  {
    if inner.family != outer.family {
      assert InRange(inner, Address(inner.family, First(inner)));
    } else if outer.bits <= inner.bits {
      SharesIffShorterContains(outer, inner);
      MaskCoarser(inner.ip, HostBits(inner), HostBits(outer));
    } else {
      WithinNeedsLonger(outer, inner);
      LongerContainsShorter(inner, outer);
    }
  }

  /** 10.0.0.0/8 passes as a range within 10.0.0.0/16. */
  lemma WithinTestWitness()
    ensures var outer, inner := Network(IPv4, Shl(10, 24), 16), Network(IPv4, Shl(10, 24), 8);
            IsCIDRWithinCIDR(outer, inner) && !Within(inner, outer)
  {
    var outer: Prefix, inner: Prefix := Network(IPv4, Shl(10, 24), 16), Network(IPv4, Shl(10, 24), 8);
    WithinNeedsLonger(outer, inner);
    ShrShl(10, 24, 24);
    MaskCoarser(inner.ip, 16, 24);
    LongerContainsShorter(inner, outer);
  }

  // ---------------------------------------------------------------------------
  // Node blocks of the cluster range
  // ---------------------------------------------------------------------------

  /** The cluster range and the size of the blocks handed to nodes. */
  datatype Layout = Layout(cluster: Prefix, nodeBits: nat)

  /** NewNodeIpamController refuses a node mask shorter than the cluster mask. */
  type ClusterLayout = l: Layout | l.cluster.family == IPv4 && l.cluster.bits <= l.nodeBits <= 32
    witness Layout(Network(IPv4, 0, 0), 0)

  function BlockCount(l: ClusterLayout): nat {
    Pow2(l.nodeBits - l.cluster.bits)
  }

  /** The CIDR of the block with the given index. */
  function BlockNet(l: ClusterLayout, index: nat): Prefix {
    Network(IPv4, First(l.cluster) + Shl(index, 32 - l.nodeBits), l.nodeBits)
  }

  predicate IsBlock(l: ClusterLayout, index: nat) {
    index < BlockCount(l)
  }

  /** The blocks that `CidrSet.Occupy` marks for a CIDR: those it has an address in common with. */
  ghost function Overlapped(l: ClusterLayout, n: Prefix): set<nat> {
    set i | 0 <= i < BlockCount(l) && SharesAddress(BlockNet(l, i), n)
  }

  lemma BlockFirst(l: ClusterLayout, index: nat)
    ensures First(BlockNet(l, index)) == First(l.cluster) + Shl(index, 32 - l.nodeBits)
  {
    AlignedSum(Shr(l.cluster.ip, HostBits(l.cluster)), index, 32 - l.nodeBits, HostBits(l.cluster));
  }

  /** Blocks with different indices have no address in common. */
  lemma DistinctBlocksDisjoint(l: ClusterLayout, i: nat, j: nat)
    requires i != j
    ensures !SharesAddress(BlockNet(l, i), BlockNet(l, j))
  {
    BlockFirst(l, i);
    BlockFirst(l, j);
    ShlStrict(if i < j then i else j, if i < j then j else i, 32 - l.nodeBits);
  }

  lemma ClusterSize(l: ClusterLayout)
    ensures Size(l.cluster) == Shl(BlockCount(l), 32 - l.nodeBits)
  {
    ShlOne(l.nodeBits - l.cluster.bits);
    ShlShl(1, l.nodeBits - l.cluster.bits, 32 - l.nodeBits);
    ShlOne(32 - l.cluster.bits);
  }

  lemma BlockInCluster(l: ClusterLayout, index: nat, a: Address)
    requires IsBlock(l, index) && InRange(BlockNet(l, index), a)
    ensures InRange(l.cluster, a)
  {
    ClusterSize(l);
    BlockFirst(l, index);
    ShlStrict(index, BlockCount(l), 32 - l.nodeBits);
  }

  lemma BlockHolding(l: ClusterLayout, a: Address) returns (index: nat)
    requires InRange(l.cluster, a)
    ensures IsBlock(l, index) && InRange(BlockNet(l, index), a)
  {
    ClusterSize(l);
    var x := a.value - First(l.cluster);
    index := Shr(x, 32 - l.nodeBits);
    ShrBracket(x, 32 - l.nodeBits, index);
    if BlockCount(l) < index {
      ShlStrict(BlockCount(l), index, 32 - l.nodeBits);
    }
    BlockFirst(l, index);
  }

  /** Every block lies in the cluster range, and every cluster address lies in a block. */
  lemma BlocksTileCluster(l: ClusterLayout, a: Address)
    ensures InRange(l.cluster, a) <==> exists i :: IsBlock(l, i) && InRange(BlockNet(l, i), a)
  {
    if InRange(l.cluster, a) {
      var i := BlockHolding(l, a);
    }
    if i :| IsBlock(l, i) && InRange(BlockNet(l, i), a) {
      BlockInCluster(l, i, a);
    }
  }

  /** A node CIDR of the node mask size that is one of the blocks overlaps that block only. */
  lemma OverlappedByBlock(l: ClusterLayout, index: nat)
    requires IsBlock(l, index)
    ensures Overlapped(l, BlockNet(l, index)) == {index}
  {
    forall i | 0 <= i < BlockCount(l)
      ensures SharesAddress(BlockNet(l, i), BlockNet(l, index)) <==> i == index
    {
      if i != index {
        DistinctBlocksDisjoint(l, i, index);
      } else {
        var a := Address(IPv4, First(BlockNet(l, i)));
        assert InRange(BlockNet(l, i), a);
      }
    }
  }

  /** The address lastIPForCIDR computes, as a /32 to occupy. */
  function LastAddressNet(n: Prefix): Prefix {
    Network(n.family, Last(n), Width(n.family))
  }

  lemma FinalIndex(l: ClusterLayout, index: nat)
    requires IsBlock(l, index) && InRange(BlockNet(l, index), Address(IPv4, Last(l.cluster)))
    ensures index == BlockCount(l) - 1
  {
    ClusterSize(l);
    BlockFirst(l, index);
    if index + 1 < BlockCount(l) {
      ShlStrict(index, index + 1, 32 - l.nodeBits);
      ShlStrict(index + 1, BlockCount(l), 32 - l.nodeBits);
    }
  }

  /** Occupying the last address of the cluster range marks the final block and no other. */
  lemma LastAddressMarksFinalBlock(l: ClusterLayout)
    ensures Overlapped(l, LastAddressNet(l.cluster)) == {BlockCount(l) - 1}
  {
    var last := LastAddressNet(l.cluster);
    assert Pow2(0) == 1;
    var a := Address(IPv4, Last(l.cluster));
    var final := BlockHolding(l, a);
    assert InRange(last, a);
    FinalIndex(l, final);
    forall i | 0 <= i < BlockCount(l) && SharesAddress(BlockNet(l, i), last)
      ensures i == final
    {
      if i != final {
        DistinctBlocksDisjoint(l, i, final);
      }
    }
  }
}
