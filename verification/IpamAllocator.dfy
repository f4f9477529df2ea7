/**
 * The allocator's bookkeeping of IPv4 blocks: start-up, occupyCIDRs and ReleaseCIDR
 * (cloud/nodeipam/ipam/cloud_allocator.go).  `CidrSet` stands for the upstream
 * `cidrset.CidrSet`, of which only the contract is modelled.
 */
module IpamAllocator {
  import opened Wrappers
  import opened Cidr
  import opened IpamProtocol
  import opened IpamSafety

  /** One element of Spec.PodCIDRs after parsing; None is text that does not parse. */
  type Entry = Option<Prefix>

  // ---------------------------------------------------------------------------
  // The upstream set
  // ---------------------------------------------------------------------------

  class CidrSet {
    const layout: ClusterLayout
    var used: set<nat>

    constructor (layout: ClusterLayout)
      ensures this.layout == layout && used == {}
    {
      this.layout := layout;
      used := {};
    }

    /** Marks every block the CIDR overlaps; an error when it lies outside the cluster range. */
    method Occupy(cidr: Prefix) returns (ok: bool)
      modifies this
      ensures ok <==> SharesAddress(layout.cluster, cidr)
      ensures used == old(used) + Overlapped(layout, cidr)
    {
      ok := OccupyGuard(layout.cluster, cidr);
      OccupyGuardIsOverlap(layout.cluster, cidr);
      OverlapNeedsCluster(layout, cidr);
      if ok {
        var blocks := Blocks(layout, cidr);
        used := used + blocks;
      }
    }

    /** Clears every block the CIDR overlaps, however often it was marked. */
    method Release(cidr: Prefix) returns (ok: bool)
      modifies this
      ensures ok <==> SharesAddress(layout.cluster, cidr)
      ensures used == old(used) - Overlapped(layout, cidr)
    {
      ok := OccupyGuard(layout.cluster, cidr);
      OccupyGuardIsOverlap(layout.cluster, cidr);
      OverlapNeedsCluster(layout, cidr);
      if ok {
        var blocks := Blocks(layout, cidr);
        used := used - blocks;
      }
    }
  }

  method Blocks(l: ClusterLayout, cidr: Prefix) returns (blocks: set<nat>)
    ensures blocks == Overlapped(l, cidr)
  {
    blocks := set i | 0 <= i < BlockCount(l) && OccupyGuard(BlockNet(l, i), cidr);
    forall i | 0 <= i < BlockCount(l)
      ensures OccupyGuard(BlockNet(l, i), cidr) <==> SharesAddress(BlockNet(l, i), cidr)
    {
      OccupyGuardIsOverlap(BlockNet(l, i), cidr);
    }
  }

  /** A CIDR outside the cluster range overlaps no block. */
  lemma OverlapNeedsCluster(l: ClusterLayout, cidr: Prefix)
    ensures SharesAddress(l.cluster, cidr) <==> Overlapped(l, cidr) != {}
  {
    if SharesAddress(l.cluster, cidr) {
      var a :| InRange(l.cluster, a) && InRange(cidr, a);
      var i := BlockHolding(l, a);
      assert SharesAddress(BlockNet(l, i), cidr);
      assert i in Overlapped(l, cidr);
    }
    if i :| i in Overlapped(l, cidr) {
      var a :| InRange(BlockNet(l, i), a) && InRange(cidr, a);
      BlockInCluster(l, i, a);
    }
  }

  // ---------------------------------------------------------------------------
  // occupyCIDRs and ReleaseCIDR
  // ---------------------------------------------------------------------------

  /** The blocks that the PodCIDRs of a node stand for: those of the first entry, when it is IPv4. */
  ghost function Touched(l: ClusterLayout, entries: seq<Entry>): set<nat> {
    if entries != [] && entries[0].Some? && entries[0].value.family == IPv4 then Overlapped(l, entries[0].value) else {}
  }

  /** occupyCIDRs stops with success at the first IPv6 entry. */
  ghost predicate OccupyFails(l: ClusterLayout, entries: seq<Entry>, idx: nat) {
    && entries != []
    && (|| entries[0].None?
        || (entries[0].value.family == IPv4 &&
            (idx >= 1 || !SharesAddress(l.cluster, entries[0].value) || OccupyFails(l, entries[1..], idx + 1))))
  }

  /** ReleaseCIDR skips IPv6 entries and goes on. */
  ghost predicate ReleaseFails(l: ClusterLayout, entries: seq<Entry>, idx: nat) {
    && entries != []
    && (|| entries[0].None?
        || (entries[0].value.family == IPv4 && (idx >= 1 || !SharesAddress(l.cluster, entries[0].value)))
        || ReleaseFails(l, entries[1..], idx + 1))
  }

  /** Only the first entry may be IPv4, it must meet the cluster range, and all entries must be readable. */
  lemma {:induction false} ReleaseFailsMeans(l: ClusterLayout, entries: seq<Entry>, idx: nat)
    ensures !ReleaseFails(l, entries, idx) <==> forall i :: 0 <= i < |entries| ==>
      entries[i].Some? && (entries[i].value.family == IPv4 ==>
        idx + i == 0 && SharesAddress(l.cluster, entries[i].value))
  {
    if entries != [] {
      ReleaseFailsMeans(l, entries[1..], idx + 1);
      assert forall i :: 1 <= i < |entries| ==> entries[i] == entries[1..][i - 1];
    }
  }

  /** The first entry decides, and only an IPv4 one lets the second be looked at. */
  ghost predicate Acceptable(l: ClusterLayout, entries: seq<Entry>) {
    || entries == []
    || (&& entries[0].Some?
        && (|| entries[0].value.family == IPv6
            || (&& SharesAddress(l.cluster, entries[0].value)
                && (|entries| == 1 || (entries[1].Some? && entries[1].value.family == IPv6)))))
  }

  lemma {:induction false} OccupyFailsMeans(l: ClusterLayout, entries: seq<Entry>)
    ensures !OccupyFails(l, entries, 0) <==> Acceptable(l, entries)
  {
    if |entries| > 1 {
      assert entries[1..][0] == entries[1];
    }
  }

  method OccupyCIDRs(cidrSet: CidrSet, entries: seq<Entry>) returns (ok: bool)
    modifies cidrSet
    ensures cidrSet.used == old(cidrSet.used) + Touched(cidrSet.layout, entries)
    ensures ok <==> !OccupyFails(cidrSet.layout, entries, 0)
    ensures ok <==> Acceptable(cidrSet.layout, entries)
  {
    OccupyFailsMeans(cidrSet.layout, entries);
    var idx := 0;
    while idx < |entries|
      invariant 0 <= idx <= |entries|
      invariant cidrSet.used == old(cidrSet.used) + if idx == 0 then {} else Touched(cidrSet.layout, entries)
      invariant OccupyFails(cidrSet.layout, entries, 0) <==> OccupyFails(cidrSet.layout, entries[idx..], idx)
    {
      assert entries[idx..][1..] == entries[idx + 1..];
      match entries[idx] {
        case None =>
          return false;
        case Some(podCIDR) =>
          if podCIDR.family == IPv6 {
            return true;
          }
          if idx >= 1 {
            return false;
          }
          var marked := cidrSet.Occupy(podCIDR);
          if !marked {
            return false;
          }
      }
      idx := idx + 1;
    }
    return true;
  }

  method ReleaseCIDR(cidrSet: CidrSet, entries: seq<Entry>) returns (ok: bool)
    modifies cidrSet
    ensures cidrSet.used == old(cidrSet.used) - Touched(cidrSet.layout, entries)
    ensures ok <==> !ReleaseFails(cidrSet.layout, entries, 0)
    ensures ok <==> forall i :: 0 <= i < |entries| ==>
      entries[i].Some? && (entries[i].value.family == IPv4 ==>
        i == 0 && SharesAddress(cidrSet.layout.cluster, entries[i].value))
  {
    ReleaseFailsMeans(cidrSet.layout, entries, 0);
    var idx := 0;
    while idx < |entries|
      invariant 0 <= idx <= |entries|
      invariant cidrSet.used == old(cidrSet.used) - if idx == 0 then {} else Touched(cidrSet.layout, entries)
      invariant ReleaseFails(cidrSet.layout, entries, 0) <==> ReleaseFails(cidrSet.layout, entries[idx..], idx)
    {
      assert entries[idx..][1..] == entries[idx + 1..];
      match entries[idx] {
        case None =>
          return false;
        case Some(podCIDR) =>
          if podCIDR.family == IPv4 {
            if idx >= 1 {
              return false;
            }
            var cleared := cidrSet.Release(podCIDR);
            if !cleared {
              return false;
            }
          }
      }
      idx := idx + 1;
    }
    return true;
  }

  /** Releasing a node's CIDRs after occupying them restores the set exactly when its blocks were free before. */
  method OccupyThenRelease(cidrSet: CidrSet, entries: seq<Entry>) returns (occupied: bool, released: bool)
    modifies cidrSet
    ensures cidrSet.used == old(cidrSet.used) <==> Touched(cidrSet.layout, entries) !! old(cidrSet.used)
    ensures occupied <==> !OccupyFails(cidrSet.layout, entries, 0)
    ensures released <==> !ReleaseFails(cidrSet.layout, entries, 0)
    ensures released ==> occupied
  {
    occupied := OccupyCIDRs(cidrSet, entries);
    released := ReleaseCIDR(cidrSet, entries);
    ReleaseAcceptsLess(cidrSet.layout, entries, 0);
  }

  /** What ReleaseCIDR accepts, occupyCIDRs accepts. */
  lemma {:induction false} ReleaseAcceptsLess(l: ClusterLayout, entries: seq<Entry>, idx: nat)
    ensures OccupyFails(l, entries, idx) ==> ReleaseFails(l, entries, idx)
  {
    if entries != [] {
      ReleaseAcceptsLess(l, entries[1..], idx + 1);
    }
  }

  /** A node whose first CIDR is a block of the node mask size stands for that block. */
  lemma {:induction false} TouchedBlock(l: ClusterLayout, b: nat, rest: seq<Entry>)
    requires IsBlock(l, b)
    ensures Touched(l, [Some(BlockNet(l, b))] + rest) == {b}
  {
    OverlappedByBlock(l, b);
  }

  // ---------------------------------------------------------------------------
  // Start-up
  // ---------------------------------------------------------------------------

  /** The answer about the VPC subnet; it is not asked for unless VPC and subnet names are configured. */
  datatype SubnetAnswer = NotAsked | Failed | Subnet(cidr: Prefix)

  datatype Params = Params(
    layout: ClusterLayout,
    subnet: SubnetAnswer,
    service: Option<Prefix>,
    secondaryService: Option<Prefix>)

  /** shouldReserveFinalIPv4Block: the two ranges end at the same address. */
  predicate ShouldReserveFinal(p: Params) {
    p.subnet.Subnet? && p.subnet.cidr.family == IPv4 && Cidr.Last(p.layout.cluster) == Cidr.Last(p.subnet.cidr)
  }

  /** Some address is in both ranges, and no greater one is in either. */
  ghost predicate EndTogether(n: Prefix, m: Prefix) {
    exists a :: InRange(n, a) && InRange(m, a) && forall b :: InRange(n, b) || InRange(m, b) ==> b.value <= a.value
  }

  /** The final block is set aside exactly when the cluster range and the VPC subnet end together. */
  lemma ReserveFinalIff(p: Params)
    ensures ShouldReserveFinal(p) <==> p.subnet.Subnet? && EndTogether(p.layout.cluster, p.subnet.cidr)
  {
    var n := p.layout.cluster;
    assert InRange(n, Address(IPv4, Cidr.Last(n)));
    if p.subnet.Subnet? {
      var m := p.subnet.cidr;
      assert InRange(m, Address(m.family, Cidr.Last(m)));
    }
  }

  function Listed1(o: Option<Prefix>): seq<Prefix> {
    if o.Some? then [o.value] else []
  }

  /** The CIDRs whose blocks are set aside before any node is considered. */
  function ReservedCIDRs(p: Params): seq<Prefix> {
    (if ShouldReserveFinal(p) then [LastAddressNet(p.layout.cluster)] else [])
    + Listed1(p.service) + Listed1(p.secondaryService)
  }

  /** filterOutServiceRange: an error of Occupy is only logged. */
  method FilterOutServiceRange(cidrSet: CidrSet, service: Prefix)
    modifies cidrSet
    ensures cidrSet.used == old(cidrSet.used) + Overlapped(cidrSet.layout, service)
  {
    OverlapTestsAgree(cidrSet.layout.cluster, service);
    OverlapNeedsCluster(cidrSet.layout, service);
    if !FilterGuard(cidrSet.layout.cluster, service) {
      return;
    }
    var _ := cidrSet.Occupy(service);
  }

  ghost function AllTouched(l: ClusterLayout, nodes: seq<seq<Entry>>): set<nat> {
    if nodes == [] then {} else Touched(l, nodes[0]) + AllTouched(l, nodes[1..])
  }

  lemma {:induction false} AllTouchedSnoc(l: ClusterLayout, nodes: seq<seq<Entry>>, entries: seq<Entry>)
    ensures AllTouched(l, nodes + [entries]) == AllTouched(l, nodes) + Touched(l, entries)
  {
    if nodes == [] {
      assert nodes + [entries] == [entries];
    } else {
      AllTouchedSnoc(l, nodes[1..], entries);
      assert (nodes + [entries])[1..] == nodes[1..] + [entries];
    }
  }

  lemma {:induction false} AllTouchedMember(l: ClusterLayout, nodes: seq<seq<Entry>>, b: nat)
    ensures b in AllTouched(l, nodes) <==> exists i :: 0 <= i < |nodes| && b in Touched(l, nodes[i])
  {
    if nodes != [] {
      AllTouchedMember(l, nodes[1..], b);
      assert forall i :: 1 <= i < |nodes| ==> nodes[i] == nodes[1..][i - 1];
      if i :| 0 <= i < |nodes[1..]| && b in Touched(l, nodes[1..][i]) {
        assert nodes[i + 1] == nodes[1..][i];
      }
    }
  }

  /** Why a block is not free after start-up. */
  ghost predicate TakenAtStart(p: Params, nodes: seq<seq<Entry>>, b: nat) {
    && b < BlockCount(p.layout)
    && (|| (p.subnet.Subnet? && EndTogether(p.layout.cluster, p.subnet.cidr) && b == BlockCount(p.layout) - 1)
        || (p.service.Some? && SharesAddress(BlockNet(p.layout, b), p.service.value))
        || (p.secondaryService.Some? && SharesAddress(BlockNet(p.layout, b), p.secondaryService.value))
        || exists i :: 0 <= i < |nodes| && HasFirst(p.layout, nodes[i], b))
  }

  /** The first CIDR of a node is an IPv4 one that meets the block. */
  ghost predicate HasFirst(l: ClusterLayout, entries: seq<Entry>, b: nat) {
    && entries != [] && entries[0].Some? && entries[0].value.family == IPv4
    && SharesAddress(BlockNet(l, b), entries[0].value)
  }

  lemma TakenMeans(p: Params, nodes: seq<seq<Entry>>, b: nat)
    ensures b in SetAside(p.layout, ReservedCIDRs(p)) + AllTouched(p.layout, nodes) <==> TakenAtStart(p, nodes, b)
  {
    ReserveFinalIff(p);
    SetAsideOfReserved(p);
    AllTouchedMember(p.layout, nodes, b);
  }

  method SetAsideRanges(cidrSet: CidrSet, p: Params)
    requires cidrSet.layout == p.layout
    modifies cidrSet
    ensures cidrSet.used == old(cidrSet.used) + SetAside(p.layout, ReservedCIDRs(p))
  {
    SetAsideOfReserved(p);
    ReserveFinalIff(p);
    LastAddressMarksFinalBlock(p.layout);
    if ShouldReserveFinal(p) {
      var _ := cidrSet.Occupy(LastAddressNet(p.layout.cluster));
    }
    if p.service.Some? {
      FilterOutServiceRange(cidrSet, p.service.value);
    }
    if p.secondaryService.Some? {
      FilterOutServiceRange(cidrSet, p.secondaryService.value);
    }
  }

  /**
   * NewLinodeCIDRAllocator: set aside the reserved ranges, then mark the CIDRs of the listed nodes; `registered` is the
   * answer to adding the event handlers.
   */
  method NewAllocator(p: Params, nodes: seq<seq<Entry>>, registered: bool) returns (r: Option<CidrSet>)
    ensures r.Some? ==> fresh(r.value) && r.value.layout == p.layout
    ensures r.Some? ==> r.value.used == SetAside(p.layout, ReservedCIDRs(p)) + AllTouched(p.layout, nodes)
    ensures r.Some? ==> forall b :: b in r.value.used <==> TakenAtStart(p, nodes, b)
    ensures r.None? <==>
      p.subnet.Failed? || !registered || exists i :: 0 <= i < |nodes| && !Acceptable(p.layout, nodes[i])
  {
    var cidrSet := new CidrSet(p.layout);
    if p.subnet.Failed? {
      return None;
    }
    SetAsideRanges(cidrSet, p);
    ghost var reserved := cidrSet.used;
    var i := 0;
    while i < |nodes|
      invariant 0 <= i <= |nodes|
      invariant cidrSet.used == reserved + AllTouched(p.layout, nodes[..i])
      invariant forall j :: 0 <= j < i ==> Acceptable(p.layout, nodes[j])
    {
      AllTouchedSnoc(p.layout, nodes[..i], nodes[i]);
      assert nodes[..i + 1] == nodes[..i] + [nodes[i]];
      if nodes[i] != [] {
        var ok := OccupyCIDRs(cidrSet, nodes[i]);
        if !ok {
          return None;
        }
      }
      i := i + 1;
    }
    assert nodes[..|nodes|] == nodes;
    if !registered {
      return None;
    }
    forall b ensures b in cidrSet.used <==> TakenAtStart(p, nodes, b) {
      TakenMeans(p, nodes, b);
    }
    return Some(cidrSet);
  }

  lemma UnionAssociates(x: set<Block>, y: set<Block>, z: set<Block>)
    ensures x + (y + z) == x + y + z
  {
  }

  lemma {:induction false} SetAsideConcat(l: ClusterLayout, xs: seq<Prefix>, ys: seq<Prefix>)
    ensures SetAside(l, xs + ys) == SetAside(l, xs) + SetAside(l, ys)
  {
    if xs == [] {
      assert xs + ys == ys;
    } else {
      SetAsideConcat(l, xs[1..], ys);
      assert (xs + ys)[0] == xs[0] && (xs + ys)[1..] == xs[1..] + ys;
      UnionAssociates(Overlapped(l, xs[0]), SetAside(l, xs[1..]), SetAside(l, ys));
    }
  }

  /** The final block when both ranges end at the same address, and the blocks a service range overlaps. */
  lemma SetAsideOfReserved(p: Params)
    ensures SetAside(p.layout, ReservedCIDRs(p)) ==
              (if p.subnet.Subnet? && EndTogether(p.layout.cluster, p.subnet.cidr) then {BlockCount(p.layout) - 1}
               else {})
              + (if p.service.Some? then Overlapped(p.layout, p.service.value) else {})
              + (if p.secondaryService.Some? then Overlapped(p.layout, p.secondaryService.value) else {})
  {
    var l := p.layout;
    ReserveFinalIff(p);
    var final := if ShouldReserveFinal(p) then [LastAddressNet(l.cluster)] else [];
    SetAsideConcat(l, final + Listed1(p.service), Listed1(p.secondaryService));
    SetAsideConcat(l, final, Listed1(p.service));
    LastAddressMarksFinalBlock(l);
    assert forall n: Prefix :: SetAside(l, [n]) == Overlapped(l, n) by {
      forall n: Prefix
        ensures SetAside(l, [n]) == Overlapped(l, n)
      {
        assert SetAside(l, [n][1..]) == {};
      }
    }
  }

  // ---------------------------------------------------------------------------
  // The state from which the protocol starts
  // ---------------------------------------------------------------------------

  /** A listed node: its block, if it has one, and the IPv6 entries after it. */
  datatype ListedNode = ListedNode(name: NodeName, block: Option<Block>, ipv6: seq<Entry>)

  function Entries(l: ClusterLayout, n: ListedNode): seq<Entry> {
    if n.block.Some? then [Some(BlockNet(l, n.block.value))] + n.ipv6 else []
  }

  function AllEntries(l: ClusterLayout, nodes: seq<ListedNode>): seq<seq<Entry>> {
    if nodes == [] then [] else [Entries(l, nodes[0])] + AllEntries(l, nodes[1..])
  }

  /** Names differ, and so do the blocks, each of which is a block of the cluster range. */
  ghost predicate ProperList(l: ClusterLayout, nodes: seq<ListedNode>) {
    && (forall i, j :: 0 <= i < j < |nodes| ==> nodes[i].name != nodes[j].name)
    && (forall i, j :: 0 <= i < j < |nodes| && nodes[i].block.Some? ==> nodes[i].block != nodes[j].block)
    && (forall i :: 0 <= i < |nodes| && nodes[i].block.Some? ==> IsBlock(l, nodes[i].block.value))
  }

  ghost function StartState(l: ClusterLayout, nodes: seq<ListedNode>, used: set<Block>): State
    requires ProperList(l, nodes)
  {
    State(map i | 0 <= i < |nodes| :: nodes[i].name := NodeLog([Present(nodes[i].block)], 0), used, map[], {}, {}, {})
  }

  lemma {:induction false} AllTouchedBlocks(l: ClusterLayout, nodes: seq<ListedNode>, b: Block)
    requires forall i :: 0 <= i < |nodes| && nodes[i].block.Some? ==> IsBlock(l, nodes[i].block.value)
    ensures b in AllTouched(l, AllEntries(l, nodes))
       <==> exists i :: 0 <= i < |nodes| && nodes[i].block == Some(b)
  {
    if nodes != [] {
      var rest := nodes[1..];
      var all := AllEntries(l, nodes);
      assert all[1..] == AllEntries(l, rest);
      AllTouchedBlocks(l, rest, b);
      if nodes[0].block.Some? {
        TouchedBlock(l, nodes[0].block.value, nodes[0].ipv6);
      }
      assert forall i :: 1 <= i < |nodes| ==> nodes[i] == rest[i - 1];
      assert forall i :: 0 <= i < |rest| ==> rest[i] == nodes[i + 1];
    }
  }

  /** The set that start-up leaves and the listed nodes form an initial state of the protocol. */
  lemma {:induction false} StartUpMeetsInit(l: ClusterLayout, cidrs: seq<Prefix>, nodes: seq<ListedNode>)
    requires ProperList(l, nodes)
    ensures Init(Config(BlockCount(l), SetAside(l, cidrs)),
                 StartState(l, nodes, SetAside(l, cidrs) + AllTouched(l, AllEntries(l, nodes))))
  {
    SetAsideInRange(l, cidrs);
    MarkedAtStart(l, SetAside(l, cidrs), nodes);
    MarkedMeetsInit(Config(BlockCount(l), SetAside(l, cidrs)), l, nodes,
                    SetAside(l, cidrs) + AllTouched(l, AllEntries(l, nodes)));
  }

  lemma {:induction false} MarkedAtStart(l: ClusterLayout, reserved: set<Block>, nodes: seq<ListedNode>)
    requires ProperList(l, nodes)
    ensures forall b :: b in reserved + AllTouched(l, AllEntries(l, nodes))
                   <==> b in reserved || exists i :: 0 <= i < |nodes| && nodes[i].block == Some(b)
  {
    forall b: Block
      ensures b in AllTouched(l, AllEntries(l, nodes)) <==> exists i :: 0 <= i < |nodes| && nodes[i].block == Some(b)
    {
      AllTouchedBlocks(l, nodes, b);
    }
  }

  lemma {:induction false} MarkedMeetsInit(c: Config, l: ClusterLayout, nodes: seq<ListedNode>, marked: set<Block>)
    requires ProperList(l, nodes) && c.count == BlockCount(l)
    requires forall b :: b in c.reserved ==> b < c.count
    requires forall b :: b in marked <==> b in c.reserved || exists i :: 0 <= i < |nodes| && nodes[i].block == Some(b)
    ensures Init(c, StartState(l, nodes, marked))
  {
    var s := StartState(l, nodes, marked);
    forall b
      ensures b in marked <==> b in c.reserved || exists n :: Stored(s, n) == Present(Some(b))
    {
      StoredAtStart(l, nodes, marked, b);
    }
    forall n, m, b | Stored(s, n) == Present(Some(b)) && Stored(s, m) == Present(Some(b))
      ensures n == m
    {
      var i := StoredIndex(l, nodes, marked, n, b);
      var j := StoredIndex(l, nodes, marked, m, b);
    }
  }

  lemma {:induction false} StoredIndex(l: ClusterLayout, nodes: seq<ListedNode>, used: set<Block>, n: NodeName,
                                       b: Block)
    returns (i: nat)
    requires ProperList(l, nodes) && Stored(StartState(l, nodes, used), n) == Present(Some(b))
    ensures i < |nodes| && nodes[i].name == n && nodes[i].block == Some(b)
  {
    i :| 0 <= i < |nodes| && nodes[i].name == n;
  }

  lemma {:induction false} StoredAtStart(l: ClusterLayout, nodes: seq<ListedNode>, used: set<Block>, b: Block)
    requires ProperList(l, nodes)
    ensures (exists n :: Stored(StartState(l, nodes, used), n) == Present(Some(b)))
       <==> exists i :: 0 <= i < |nodes| && nodes[i].block == Some(b)
  {
    var s := StartState(l, nodes, used);
    if n :| Stored(s, n) == Present(Some(b)) {
      var i := StoredIndex(l, nodes, used, n, b);
    }
    if i :| 0 <= i < |nodes| && nodes[i].block == Some(b) {
      assert Stored(s, nodes[i].name) == Present(Some(b));
    }
  }

  lemma {:induction false} SetAsideInRange(l: ClusterLayout, cidrs: seq<Prefix>)
    ensures forall b :: b in SetAside(l, cidrs) ==> IsBlock(l, b)
  {
    if cidrs != [] {
      SetAsideInRange(l, cidrs[1..]);
    }
  }
}
