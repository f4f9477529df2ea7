/**
 * The instance cache (cloud/linode/services/instances.go): a refresh asks for the instances and for the
 * IPv4 and IPv6 addresses of every VPC, and replaces the cache only when all the answers are there.  A lookup
 * takes the lock for each of its steps, so that other refreshes may come between them.
 */
module Instances {
  import opened Wrappers

  datatype AddressKind = InternalIP | ExternalIP

  datatype NodeIP = NodeIP(ip: string, kind: AddressKind)

  /** An IPv4 address of an instance; `private` is the answer of IsPrivate. */
  datatype IPv4 = IPv4(text: string, private: bool)

  /** linodego.Instance; `ipv6` has its "/128" suffix already trimmed, and is empty when there is none. */
  datatype Linode = Linode(id: int, name: string, ipv4: seq<IPv4>, ipv6: string)

  datatype Vpc4 = Vpc4(linode: int, address: Option<string>)

  datatype Vpc6 = Vpc6(linode: int, isPublic: Option<bool>, addresses: seq<string>)

  datatype Vpc = Vpc(ipv4: seq<Vpc4>, ipv6: seq<Vpc6>)

  /** One complete answer; `inVPC` says that VPC names are configured. */
  datatype Fetch = Fetch(instances: seq<Linode>, vpcs: seq<Vpc>, inVPC: bool)

  datatype Entry = Entry(instance: Linode, ips: seq<NodeIP>)

  type Kinds = map<string, AddressKind>

  // -- the addresses of one instance ------------------------------------------------------

  /** The VPC addresses that are not, and those that are, known as IPv6, each in the order given. */
  function VpcIPv4s(vpcips: seq<string>, kinds: Kinds): seq<NodeIP> {
    if vpcips == [] then []
    else
      var n := |vpcips| - 1;
      VpcIPv4s(vpcips[..n], kinds) + if vpcips[n] in kinds then [] else [NodeIP(vpcips[n], InternalIP)]
  }

  function VpcIPv6s(vpcips: seq<string>, kinds: Kinds): seq<NodeIP> {
    if vpcips == [] then []
    else
      var n := |vpcips| - 1;
      VpcIPv6s(vpcips[..n], kinds) + if vpcips[n] in kinds then [NodeIP(vpcips[n], kinds[vpcips[n]])] else []
  }

  function OwnIPv4(ip: IPv4): NodeIP {
    NodeIP(ip.text, if ip.private then InternalIP else ExternalIP)
  }

  function OwnIPv4s(ips: seq<IPv4>): (r: seq<NodeIP>)
    ensures |r| == |ips| && forall i :: 0 <= i < |ips| ==> r[i] == OwnIPv4(ips[i])
  {
    seq(|ips|, i requires 0 <= i < |ips| => OwnIPv4(ips[i]))
  }

  function PublicIPv6(ip: string): seq<NodeIP> {
    if ip == "" then [] else [NodeIP(ip, ExternalIP)]
  }

  function Addresses(instance: Linode, vpcips: seq<string>, kinds: Kinds): seq<NodeIP> {
    VpcIPv4s(vpcips, kinds) + OwnIPv4s(instance.ipv4) + VpcIPv6s(vpcips, kinds) + PublicIPv6(instance.ipv6)
  }

  /** getInstanceAddresses */
  method GetInstanceAddresses(instance: Linode, vpcips: seq<string>, kinds: Kinds) returns (ips: seq<NodeIP>)
    ensures ips == Addresses(instance, vpcips, kinds)
  {
    ips := [];
    var vpcIPv6Addrs: seq<NodeIP> := [];
    for i := 0 to |vpcips|
      invariant ips == VpcIPv4s(vpcips[..i], kinds) && vpcIPv6Addrs == VpcIPv6s(vpcips[..i], kinds)
    {
      assert vpcips[..i + 1][..i] == vpcips[..i];
      if vpcips[i] in kinds {
        vpcIPv6Addrs := vpcIPv6Addrs + [NodeIP(vpcips[i], kinds[vpcips[i]])];
        continue;
      }
      ips := ips + [NodeIP(vpcips[i], InternalIP)];
    }
    assert vpcips[..|vpcips|] == vpcips;
    ghost var first := ips;
    for i := 0 to |instance.ipv4|
      invariant ips == first + OwnIPv4s(instance.ipv4)[..i]
    {
      ips := ips + [OwnIPv4(instance.ipv4[i])];
    }
    assert OwnIPv4s(instance.ipv4)[..|instance.ipv4|] == OwnIPv4s(instance.ipv4);
    ips := ips + vpcIPv6Addrs;
    if instance.ipv6 != "" {
      ips := ips + [NodeIP(instance.ipv6, ExternalIP)];
    }
  }

  function Texts(ips: seq<NodeIP>): (r: seq<string>)
    ensures |r| == |ips| && forall i :: 0 <= i < |ips| ==> r[i] == ips[i].ip
  {
    seq(|ips|, i requires 0 <= i < |ips| => ips[i].ip)
  }

  function OwnTexts(ips: seq<IPv4>): (r: seq<string>)
    ensures |r| == |ips| && forall i :: 0 <= i < |ips| ==> r[i] == ips[i].text
  {
    seq(|ips|, i requires 0 <= i < |ips| => ips[i].text)
  }

  /** The addresses in a list, with their multiplicities. */
  function Bag(ips: seq<NodeIP>): multiset<string> {
    multiset(Texts(ips))
  }

  lemma BagConcat(a: seq<NodeIP>, b: seq<NodeIP>)
    ensures Bag(a + b) == Bag(a) + Bag(b)
  {
    assert Texts(a + b) == Texts(a) + Texts(b);
  }

  lemma BagSnoc(a: seq<NodeIP>, x: NodeIP)
    ensures Bag(a + [x]) == Bag(a) + multiset{x.ip}
  {
    assert Texts(a + [x]) == Texts(a) + [x.ip];
  }

  lemma {:induction false} VpcSplit(vpcips: seq<string>, kinds: Kinds)
    ensures Bag(VpcIPv4s(vpcips, kinds)) + Bag(VpcIPv6s(vpcips, kinds)) == multiset(vpcips)
  {
    if vpcips != [] {
      var n := |vpcips| - 1;
      var v4, v6, last := VpcIPv4s(vpcips[..n], kinds), VpcIPv6s(vpcips[..n], kinds), vpcips[n];
      VpcSplit(vpcips[..n], kinds);
      assert vpcips == vpcips[..n] + [last];
      assert v4 + [] == v4 && v6 + [] == v6;
      if last in kinds {
        BagSnoc(v6, NodeIP(last, kinds[last]));
      } else {
        BagSnoc(v4, NodeIP(last, InternalIP));
      }
    }
  }

  /** The address list is a rearrangement: nothing is lost and nothing is added. */
  lemma {:induction false} AddressesRearranged(instance: Linode, vpcips: seq<string>, kinds: Kinds)
    ensures Bag(Addresses(instance, vpcips, kinds)) ==
      multiset(vpcips) + multiset(OwnTexts(instance.ipv4))
      + if instance.ipv6 == "" then multiset{} else multiset{instance.ipv6}
  {
    var a, b := VpcIPv4s(vpcips, kinds), OwnIPv4s(instance.ipv4);
    var c, d := VpcIPv6s(vpcips, kinds), PublicIPv6(instance.ipv6);
    BagConcat(a, b);
    BagConcat(a + b, c);
    BagConcat(a + b + c, d);
    VpcSplit(vpcips, kinds);
    assert Texts(b) == OwnTexts(instance.ipv4);
    assert Texts(d) == if instance.ipv6 == "" then [] else [instance.ipv6];
  }

  /** How many of the first `n` VPC addresses are not known as IPv6. */
  function PlainBelow(vpcips: seq<string>, kinds: Kinds, n: nat): (k: nat)
    requires n <= |vpcips|
    ensures k <= n
  {
    if n == 0 then 0 else PlainBelow(vpcips, kinds, n - 1) + if vpcips[n - 1] in kinds then 0 else 1
  }

  lemma {:induction false} PlainPrefix(vpcips: seq<string>, kinds: Kinds, m: nat, n: nat)
    requires n <= m <= |vpcips|
    ensures PlainBelow(vpcips[..m], kinds, n) == PlainBelow(vpcips, kinds, n)
  {
    if n > 0 {
      PlainPrefix(vpcips, kinds, m, n - 1);
    }
  }

  lemma {:induction false} VpcPlaces(vpcips: seq<string>, kinds: Kinds, i: nat)
    requires i <= |vpcips|
    ensures |VpcIPv4s(vpcips, kinds)| == PlainBelow(vpcips, kinds, |vpcips|)
    ensures |VpcIPv6s(vpcips, kinds)| == |vpcips| - PlainBelow(vpcips, kinds, |vpcips|)
    ensures i < |vpcips| ==>
      var k := PlainBelow(vpcips, kinds, i);
      if vpcips[i] in kinds
      then i - k < |VpcIPv6s(vpcips, kinds)| && VpcIPv6s(vpcips, kinds)[i - k] == NodeIP(vpcips[i], kinds[vpcips[i]])
      else k < |VpcIPv4s(vpcips, kinds)| && VpcIPv4s(vpcips, kinds)[k] == NodeIP(vpcips[i], InternalIP)
  {
    if vpcips != [] {
      var n := |vpcips| - 1;
      VpcPlaces(vpcips[..n], kinds, if i <= n then i else n);
      PlainPrefix(vpcips, kinds, n, n);
      if i < n {
        PlainPrefix(vpcips, kinds, n, i);
      }
    }
  }

  /**
   * Where each address stands: the VPC addresses that are not known as IPv6, in order and internal; the instance's own
   * IPv4 addresses; the VPC IPv6 addresses, in order and of their kind; and the public IPv6 address.
   */
  lemma {:induction false} AddressPlaces(instance: Linode, vpcips: seq<string>, kinds: Kinds, i: nat)
    ensures var all, n := Addresses(instance, vpcips, kinds), PlainBelow(vpcips, kinds, |vpcips|);
            && |all| == |vpcips| + |instance.ipv4| + (if instance.ipv6 == "" then 0 else 1)
            && (i < |vpcips| ==>
                  var k := PlainBelow(vpcips, kinds, i);
                  if vpcips[i] in kinds
                  then n + |instance.ipv4| + i - k < |all|
                    && all[n + |instance.ipv4| + i - k] == NodeIP(vpcips[i], kinds[vpcips[i]])
                  else k < |all| && all[k] == NodeIP(vpcips[i], InternalIP))
            && (i < |instance.ipv4| ==>
                  var ip := instance.ipv4[i];
                  all[n + i] == NodeIP(ip.text, if ip.private then InternalIP else ExternalIP))
            && (instance.ipv6 != "" ==> all[|all| - 1] == NodeIP(instance.ipv6, ExternalIP))
  {
    VpcPlaces(vpcips, kinds, if i <= |vpcips| then i else 0);
  }

  lemma {:induction false} VpcIPv4sInternal(vpcips: seq<string>, kinds: Kinds)
    ensures forall i :: 0 <= i < |VpcIPv4s(vpcips, kinds)| ==> VpcIPv4s(vpcips, kinds)[i].kind == InternalIP
  {
    if vpcips != [] {
      VpcIPv4sInternal(vpcips[..|vpcips| - 1], kinds);
    }
  }

  /** The first external address is the instance's first public IPv4 address whenever it has one. */
  lemma {:induction false} PublicIPv4First(instance: Linode, vpcips: seq<string>, kinds: Kinds, first: nat, i: nat)
    requires first < |instance.ipv4| && !instance.ipv4[first].private
    requires forall j :: 0 <= j < first ==> instance.ipv4[j].private
    requires i < |Addresses(instance, vpcips, kinds)| && Addresses(instance, vpcips, kinds)[i].kind == ExternalIP
    requires forall j :: 0 <= j < i ==> Addresses(instance, vpcips, kinds)[j].kind == InternalIP
    ensures Addresses(instance, vpcips, kinds)[i].ip == instance.ipv4[first].text
  {
    var all, n := Addresses(instance, vpcips, kinds), |VpcIPv4s(vpcips, kinds)|;
    VpcIPv4sInternal(vpcips, kinds);
    assert all[n + first] == OwnIPv4(instance.ipv4[first]);
    assert forall j :: 0 <= j < n ==> all[j] == VpcIPv4s(vpcips, kinds)[j];
    assert forall j :: n <= j < n + first ==> all[j] == OwnIPv4(instance.ipv4[j - n]);
  }

  // -- the nodes of one complete answer -----------------------------------------------------

  function Addresses4(records: seq<Vpc4>, linode: int): seq<string> {
    if records == [] then []
    else
      var n := |records| - 1;
      Addresses4(records[..n], linode)
      + if records[n].linode == linode && records[n].address.Some? then [records[n].address.value] else []
  }

  function Addresses6(records: seq<Vpc6>, linode: int): seq<string> {
    if records == [] then []
    else
      var n := |records| - 1;
      Addresses6(records[..n], linode) + if records[n].linode == linode then records[n].addresses else []
  }

  /** The VPC addresses of an instance: VPC by VPC, IPv4 before IPv6. */
  function VpcIPs(vpcs: seq<Vpc>, linode: int): seq<string> {
    if vpcs == [] then []
    else
      var n := |vpcs| - 1;
      VpcIPs(vpcs[..n], linode) + Addresses4(vpcs[n].ipv4, linode) + Addresses6(vpcs[n].ipv6, linode)
  }

  function KindOf(r: Vpc6): AddressKind {
    if r.isPublic == Some(true) then ExternalIP else InternalIP
  }

  function WithKinds(kinds: Kinds, addresses: seq<string>, kind: AddressKind): Kinds {
    kinds + map a | a in addresses :: kind
  }

  function Kinds6(kinds: Kinds, records: seq<Vpc6>): Kinds {
    if records == [] then kinds
    else
      var n := |records| - 1;
      WithKinds(Kinds6(kinds, records[..n]), records[n].addresses, KindOf(records[n]))
  }

  /** The kind of each VPC IPv6 address; a later record wins. */
  function VpcKinds(vpcs: seq<Vpc>): Kinds {
    if vpcs == [] then map[] else Kinds6(VpcKinds(vpcs[..|vpcs| - 1]), vpcs[|vpcs| - 1].ipv6)
  }

  function EntryOf(f: Fetch, instance: Linode): Entry {
    Entry(instance, Addresses(instance, VpcIPs(f.vpcs, instance.id), VpcKinds(f.vpcs)))
  }

  /** Inside a VPC only instances that are part of one are kept. */
  predicate Kept(f: Fetch, instance: Linode) {
    f.inVPC ==> VpcIPs(f.vpcs, instance.id) != []
  }

  /** A record of some VPC gives the instance this address. */
  ghost predicate Assigned(vpcs: seq<Vpc>, linode: int, a: string) {
    exists v :: 0 <= v < |vpcs| && AssignedIn(vpcs[v], linode, a)
  }

  ghost predicate AssignedIn(v: Vpc, linode: int, a: string) {
    || Vpc4(linode, Some(a)) in v.ipv4
    || exists r :: r in v.ipv6 && r.linode == linode && a in r.addresses
  }

  lemma {:induction false} Members4(records: seq<Vpc4>, linode: int, a: string)
    ensures a in Addresses4(records, linode) <==> Vpc4(linode, Some(a)) in records
  {
    if records != [] {
      var n := |records| - 1;
      Members4(records[..n], linode, a);
      assert records == records[..n] + [records[n]];
    }
  }

  lemma {:induction false} Members6(records: seq<Vpc6>, linode: int, a: string)
    ensures a in Addresses6(records, linode) <==> exists r :: r in records && r.linode == linode && a in r.addresses
  {
    if records != [] {
      var n := |records| - 1;
      Members6(records[..n], linode, a);
      assert records == records[..n] + [records[n]];
    }
  }

  /** The VPC addresses of an instance are those some record gives it. */
  lemma {:induction false} VpcIPsMembers(vpcs: seq<Vpc>, linode: int, a: string)
    ensures a in VpcIPs(vpcs, linode) <==> Assigned(vpcs, linode, a)
  {
    if vpcs != [] {
      var n := |vpcs| - 1;
      VpcIPsMembers(vpcs[..n], linode, a);
      Members4(vpcs[n].ipv4, linode, a);
      Members6(vpcs[n].ipv6, linode, a);
      assert vpcs == vpcs[..n] + [vpcs[n]];
      AssignedSnoc(vpcs[..n], vpcs[n], linode, a);
    }
  }

  lemma AssignedSnoc(vpcs: seq<Vpc>, v: Vpc, linode: int, a: string)
    ensures Assigned(vpcs + [v], linode, a) <==> Assigned(vpcs, linode, a) || AssignedIn(v, linode, a)
  {
    var all := vpcs + [v];
    if i :| 0 <= i < |vpcs| && AssignedIn(vpcs[i], linode, a) {
      assert all[i] == vpcs[i];
    }
    assert all[|vpcs|] == v;
  }

  /** They come VPC by VPC, record by record, the IPv4 records of a VPC before its IPv6 records. */
  lemma {:induction false} VpcIPsInOrder(vpcs: seq<Vpc>, v4: seq<Vpc4>, r4: Vpc4, v6: seq<Vpc6>, r6: Vpc6, linode: int)
    ensures VpcIPs(vpcs + [Vpc(v4, v6)], linode) == VpcIPs(vpcs, linode) + VpcIPs([Vpc(v4, [])], linode) +
                                                    VpcIPs([Vpc([], v6)], linode)
    ensures VpcIPs([Vpc(v4 + [r4], [])], linode) ==
              VpcIPs([Vpc(v4, [])], linode) + if r4.linode == linode && r4.address.Some? then [r4.address.value] else []
    ensures VpcIPs([Vpc([], v6 + [r6])], linode) ==
              VpcIPs([Vpc([], v6)], linode) + if r6.linode == linode then r6.addresses else []
  {
    OneVpc(v4, [], linode);
    OneVpc([], v6, linode);
    OneVpc(v4 + [r4], [], linode);
    OneVpc([], v6 + [r6], linode);
    assert (vpcs + [Vpc(v4, v6)])[..|vpcs|] == vpcs;
    assert (v4 + [r4])[..|v4|] == v4 && (v6 + [r6])[..|v6|] == v6;
  }

  lemma OneVpc(v4: seq<Vpc4>, v6: seq<Vpc6>, linode: int)
    ensures VpcIPs([Vpc(v4, v6)], linode) == Addresses4(v4, linode) + Addresses6(v6, linode)
  {
    assert [Vpc(v4, v6)][..0] == [];
  }

  /** The record at this place is the last one to name the address. */
  predicate LastNaming(records: seq<Vpc6>, a: string, i: nat) {
    i < |records| && a in records[i].addresses && forall j :: i < j < |records| ==> a !in records[j].addresses
  }

  /** Some IPv6 record names the address, and the last one to do so is public exactly if asked. */
  ghost predicate LastNamedIn(records: seq<Vpc6>, a: string, isPublic: bool) {
    exists i: nat :: LastNaming(records, a, i) && (isPublic <==> records[i].isPublic == Some(true))
  }

  ghost predicate NamedIn(records: seq<Vpc6>, a: string) {
    exists i :: 0 <= i < |records| && a in records[i].addresses
  }

  lemma NamedSnoc(records: seq<Vpc6>, r: Vpc6, a: string, isPublic: bool)
    ensures NamedIn(records + [r], a) <==> NamedIn(records, a) || a in r.addresses
    ensures a in r.addresses && (isPublic <==> r.isPublic == Some(true)) ==> LastNamedIn(records + [r], a, isPublic)
    ensures a !in r.addresses && LastNamedIn(records, a, isPublic) ==> LastNamedIn(records + [r], a, isPublic)
  {
    var all := records + [r];
    assert all[|records|] == r;
    if NamedIn(records, a) {
      var i :| 0 <= i < |records| && a in records[i].addresses;
      assert all[i] == records[i];
    }
    if a in r.addresses {
      assert LastNaming(all, a, |records|);
    } else if LastNamedIn(records, a, isPublic) {
      var i: nat :| LastNaming(records, a, i) && (isPublic <==> records[i].isPublic == Some(true));
      assert LastNaming(all, a, i) && all[i] == records[i];
    }
  }

  lemma {:induction false} Kinds6Exact(kinds: Kinds, records: seq<Vpc6>, a: string)
    ensures var m := Kinds6(kinds, records);
            if NamedIn(records, a) then a in m && LastNamedIn(records, a, m[a] == ExternalIP)
            else (a in m <==> a in kinds) && (a in m ==> m[a] == kinds[a])
  {
    if records != [] {
      var n := |records| - 1;
      var m := Kinds6(kinds, records);
      Kinds6Exact(kinds, records[..n], a);
      assert records == records[..n] + [records[n]];
      NamedSnoc(records[..n], records[n], a, a in m && m[a] == ExternalIP);
    }
  }

  /** An address is known as IPv6 exactly if a record names it so, and is external exactly if the last one is public. */
  lemma {:induction false} VpcKindsExact(vpcs: seq<Vpc>, a: string)
    ensures a in VpcKinds(vpcs) <==> NamedSomewhere(vpcs, a)
    ensures a in VpcKinds(vpcs) ==> LastNamedSomewhere(vpcs, a, VpcKinds(vpcs)[a] == ExternalIP)
  {
    if vpcs != [] {
      var n := |vpcs| - 1;
      VpcKindsExact(vpcs[..n], a);
      Kinds6Exact(VpcKinds(vpcs[..n]), vpcs[n].ipv6, a);
      assert vpcs == vpcs[..n] + [vpcs[n]];
      VpcNamingSnoc(vpcs[..n], vpcs[n], a, a in VpcKinds(vpcs) && VpcKinds(vpcs)[a] == ExternalIP);
    }
  }

  ghost predicate NamedSomewhere(vpcs: seq<Vpc>, a: string) {
    exists v :: 0 <= v < |vpcs| && NamedIn(vpcs[v].ipv6, a)
  }

  ghost predicate LastNamedSomewhere(vpcs: seq<Vpc>, a: string, isPublic: bool) {
    exists v: nat :: LastVpcNaming(vpcs, a, v) && LastNamedIn(vpcs[v].ipv6, a, isPublic)
  }

  lemma VpcNamingSnoc(vpcs: seq<Vpc>, last: Vpc, a: string, isPublic: bool)
    ensures NamedSomewhere(vpcs + [last], a) <==> NamedSomewhere(vpcs, a) || NamedIn(last.ipv6, a)
    ensures NamedIn(last.ipv6, a) && LastNamedIn(last.ipv6, a, isPublic) ==>
      LastNamedSomewhere(vpcs + [last], a, isPublic)
    ensures !NamedIn(last.ipv6, a) && LastNamedSomewhere(vpcs, a, isPublic) ==>
      LastNamedSomewhere(vpcs + [last], a, isPublic)
  {
    var all := vpcs + [last];
    assert all[|vpcs|] == last;
    if v :| 0 <= v < |vpcs| && NamedIn(vpcs[v].ipv6, a) {
      assert all[v] == vpcs[v];
    }
    if NamedIn(last.ipv6, a) {
      assert LastVpcNaming(all, a, |vpcs|);
    } else if LastNamedSomewhere(vpcs, a, isPublic) {
      var v: nat :| LastVpcNaming(vpcs, a, v) && LastNamedIn(vpcs[v].ipv6, a, isPublic);
      assert LastVpcNaming(all, a, v) && all[v] == vpcs[v];
    }
  }

  ghost predicate LastVpcNaming(vpcs: seq<Vpc>, a: string, v: nat) {
    v < |vpcs| && NamedIn(vpcs[v].ipv6, a) && forall w :: v < w < |vpcs| ==> !NamedIn(vpcs[w].ipv6, a)
  }

  /** Inside a VPC an instance is kept exactly if some record gives it an address. */
  lemma KeptExact(f: Fetch, instance: Linode)
    ensures Kept(f, instance) <==> !f.inVPC || exists a :: Assigned(f.vpcs, instance.id, a)
  {
    var ips := VpcIPs(f.vpcs, instance.id);
    if ips != [] {
      VpcIPsMembers(f.vpcs, instance.id, ips[0]);
    }
    if a :| Assigned(f.vpcs, instance.id, a) {
      VpcIPsMembers(f.vpcs, instance.id, a);
    }
  }

  /** The cache a complete answer stands for. */
  function NodesUpTo(f: Fetch, n: nat): map<int, Entry>
    requires n <= |f.instances|
  {
    if n == 0 then map[]
    else
      var instance := f.instances[n - 1];
      if Kept(f, instance) then NodesUpTo(f, n - 1)[instance.id := EntryOf(f, instance)] else NodesUpTo(f, n - 1)
  }

  function NodesOf(f: Fetch): map<int, Entry> {
    NodesUpTo(f, |f.instances|)
  }

  /** The cache holds exactly the instances kept, each under its ID and with its addresses, when IDs are distinct. */
  lemma {:induction false} NodesOfExact(f: Fetch, n: nat)
    requires n <= |f.instances|
    requires forall i, j :: 0 <= i < j < |f.instances| ==> f.instances[i].id != f.instances[j].id
    ensures forall i :: 0 <= i < n && Kept(f, f.instances[i]) ==> Holds(NodesUpTo(f, n), f.instances[i], f)
    ensures forall id :: id in NodesUpTo(f, n) ==> KeptBelow(f, n, id)
  {
    if n > 0 {
      NodesOfExact(f, n - 1);
      var before, last := NodesUpTo(f, n - 1), f.instances[n - 1];
      forall i | 0 <= i < n && Kept(f, f.instances[i])
        ensures Holds(NodesUpTo(f, n), f.instances[i], f)
      {
        if i < n - 1 {
          assert Holds(before, f.instances[i], f) && f.instances[i].id != last.id;
        }
      }
      forall id | id in NodesUpTo(f, n)
        ensures KeptBelow(f, n, id)
      {
        if id in before {
          assert KeptBelow(f, n - 1, id);
        } else {
          assert id == last.id && Kept(f, last);
        }
      }
    }
  }

  /** One of the first `n` instances has this ID and is kept. */
  ghost predicate KeptBelow(f: Fetch, n: nat, id: int)
    requires n <= |f.instances|
  {
    exists i :: 0 <= i < n && f.instances[i].id == id && Kept(f, f.instances[i])
  }

  predicate Holds(nodes: map<int, Entry>, instance: Linode, f: Fetch) {
    instance.id in nodes && nodes[instance.id] == EntryOf(f, instance)
  }

  // -- the loops that gather VPC addresses ----------------------------------------------------

  type Gathered = map<int, seq<string>>

  function At(m: Gathered, linode: int): seq<string> {
    if linode in m then m[linode] else []
  }

  /** The addresses of an instance with more at the end. */
  function Add(m: Gathered, linode: int, addresses: seq<string>): Gathered {
    if addresses == [] then m else m[linode := At(m, linode) + addresses]
  }

  lemma AddAt(m: Gathered, linode: int, addresses: seq<string>, l: int)
    ensures At(Add(m, linode, addresses), l) == At(m, l) + if l == linode then addresses else []
  {
  }

  function Gather4(m: Gathered, records: seq<Vpc4>): Gathered {
    if records == [] then m
    else
      var r := records[|records| - 1];
      Add(Gather4(m, records[..|records| - 1]), r.linode, if r.address.Some? then [r.address.value] else [])
  }

  function Gather6(m: Gathered, records: seq<Vpc6>): Gathered {
    if records == [] then m
    else
      var r := records[|records| - 1];
      Add(Gather6(m, records[..|records| - 1]), r.linode, r.addresses)
  }

  function GatherAll(vpcs: seq<Vpc>): Gathered {
    if vpcs == [] then map[]
    else
      var v := vpcs[|vpcs| - 1];
      Gather6(Gather4(GatherAll(vpcs[..|vpcs| - 1]), v.ipv4), v.ipv6)
  }

  lemma {:induction false} Gather4At(m: Gathered, records: seq<Vpc4>, l: int)
    ensures At(Gather4(m, records), l) == At(m, l) + Addresses4(records, l)
  {
    if records == [] {
      assert At(m, l) + [] == At(m, l);
    } else {
      var n := |records| - 1;
      var r := records[n];
      Gather4At(m, records[..n], l);
      AddAt(Gather4(m, records[..n]), r.linode, if r.address.Some? then [r.address.value] else [], l);
    }
  }

  lemma {:induction false} Gather6At(m: Gathered, records: seq<Vpc6>, l: int)
    ensures At(Gather6(m, records), l) == At(m, l) + Addresses6(records, l)
  {
    if records == [] {
      assert At(m, l) + [] == At(m, l);
    } else {
      var n := |records| - 1;
      Gather6At(m, records[..n], l);
      AddAt(Gather6(m, records[..n]), records[n].linode, records[n].addresses, l);
    }
  }

  /** What the loops gather for an instance are its addresses in the order of the answers. */
  lemma {:induction false} GatherAllAt(vpcs: seq<Vpc>, l: int)
    ensures At(GatherAll(vpcs), l) == VpcIPs(vpcs, l)
  {
    if vpcs != [] {
      var n := |vpcs| - 1;
      GatherAllAt(vpcs[..n], l);
      Gather4At(GatherAll(vpcs[..n]), vpcs[n].ipv4, l);
      Gather6At(Gather4(GatherAll(vpcs[..n]), vpcs[n].ipv4), vpcs[n].ipv6, l);
    }
  }

  method AppendIPv4(nodes: Gathered, records: seq<Vpc4>) returns (more: Gathered)
    ensures more == Gather4(nodes, records)
  {
    more := nodes;
    for i := 0 to |records|
      invariant more == Gather4(nodes, records[..i])
    {
      assert records[..i + 1][..i] == records[..i];
      if records[i].address.None? {
        continue;
      }
      more := more[records[i].linode := At(more, records[i].linode) + [records[i].address.value]];
    }
    assert records[..|records|] == records;
  }

  lemma AddSnoc(m: Gathered, linode: int, addresses: seq<string>, i: nat)
    requires i < |addresses|
    ensures var n := Add(m, linode, addresses[..i]);
            Add(m, linode, addresses[..i + 1]) == n[linode := At(n, linode) + [addresses[i]]]
  {
    assert addresses[..i + 1] == addresses[..i] + [addresses[i]];
    assert At(m, linode) + (addresses[..i] + [addresses[i]]) == At(m, linode) + addresses[..i] + [addresses[i]];
    if i > 0 {
      var once, twice := At(m, linode) + addresses[..i], At(m, linode) + addresses[..i + 1];
      assert m[linode := once][linode := twice] == m[linode := twice];
    } else {
      assert addresses[..i] == [] && addresses[..i + 1] == [addresses[i]];
    }
  }

  lemma WithKindsSnoc(kinds: Kinds, addresses: seq<string>, kind: AddressKind, i: nat)
    requires i < |addresses|
    ensures WithKinds(kinds, addresses[..i + 1], kind) == WithKinds(kinds, addresses[..i], kind)[addresses[i] := kind]
  {
  }

  lemma NoKinds(kinds: Kinds, kind: AddressKind)
    ensures WithKinds(kinds, [], kind) == kinds
  {
  }

  /** The loops over one answer about IPv6 addresses. */
  method AppendIPv6(nodes: Gathered, kinds: Kinds, records: seq<Vpc6>) returns (more: Gathered, moreKinds: Kinds)
    ensures more == Gather6(nodes, records) && moreKinds == Kinds6(kinds, records)
  {
    more, moreKinds := nodes, kinds;
    for i := 0 to |records|
      invariant more == Gather6(nodes, records[..i]) && moreKinds == Kinds6(kinds, records[..i])
    {
      assert records[..i + 1][..i] == records[..i];
      if records[i].addresses == [] {
        NoKinds(moreKinds, KindOf(records[i]));
        continue;
      }
      more, moreKinds := AppendRecord(more, moreKinds, records[i]);
    }
    assert records[..|records|] == records;
  }

  method AppendRecord(nodes: Gathered, kinds: Kinds, r: Vpc6) returns (more: Gathered, moreKinds: Kinds)
    ensures more == Add(nodes, r.linode, r.addresses)
    ensures moreKinds == WithKinds(kinds, r.addresses, KindOf(r))
  {
    more, moreKinds := nodes, kinds;
    var kind := if r.isPublic.Some? && r.isPublic.value then ExternalIP else InternalIP;
    assert r.addresses[..0] == [];
    NoKinds(kinds, kind);
    for i := 0 to |r.addresses|
      invariant more == Add(nodes, r.linode, r.addresses[..i])
      invariant moreKinds == WithKinds(kinds, r.addresses[..i], kind)
    {
      AddSnoc(nodes, r.linode, r.addresses, i);
      WithKindsSnoc(kinds, r.addresses, kind, i);
      more := more[r.linode := At(more, r.linode) + [r.addresses[i]]];
      moreKinds := moreKinds[r.addresses[i] := kind];
    }
    assert r.addresses[..|r.addresses|] == r.addresses;
  }

  // -- the cache --------------------------------------------------------------------------------

  /** The answers for one VPC name; a blank name is skipped, and None is a failed call. */
  datatype VpcAnswer = Blank | Answer(ipv4: Option<seq<Vpc4>>, ipv6: Option<seq<Vpc6>>)

  /** The answers to all the calls of one refresh; None is a failed call. */
  datatype Answers = Answers(instances: Option<seq<Linode>>, vpcs: seq<VpcAnswer>)

  function CompleteVpcs(vpcs: seq<VpcAnswer>): Option<seq<Vpc>> {
    if vpcs == [] then Some([])
    else
      var before, v := CompleteVpcs(vpcs[..|vpcs| - 1]), vpcs[|vpcs| - 1];
      if before.None? then None
      else if v.Blank? then before
      else if v.ipv4.Some? && v.ipv6.Some? then Some(before.value + [Vpc(v.ipv4.value, v.ipv6.value)])
      else None
  }

  /** The answers as one complete fetch, if no call failed. */
  function Complete(a: Answers): Option<Fetch> {
    var vpcs := CompleteVpcs(a.vpcs);
    if a.instances.Some? && vpcs.Some? then Some(Fetch(a.instances.value, vpcs.value, a.vpcs != [])) else None
  }

  /** No call for any of these VPC names failed. */
  ghost predicate AllAnswered(vpcs: seq<VpcAnswer>) {
    forall i :: 0 <= i < |vpcs| ==> vpcs[i].Blank? || (vpcs[i].ipv4.Some? && vpcs[i].ipv6.Some?)
  }

  /** How many of the first `n` names are not blank. */
  function NamesBelow(vpcs: seq<VpcAnswer>, n: nat): (k: nat)
    requires n <= |vpcs|
    ensures k <= n
  {
    if n == 0 then 0 else NamesBelow(vpcs, n - 1) + if vpcs[n - 1].Blank? then 0 else 1
  }

  lemma {:induction false} NamesPrefix(vpcs: seq<VpcAnswer>, m: nat, n: nat)
    requires n <= m <= |vpcs|
    ensures NamesBelow(vpcs[..m], n) == NamesBelow(vpcs, n)
  {
    if n > 0 {
      NamesPrefix(vpcs, m, n - 1);
    }
  }

  /** The answers are complete exactly when no call failed. */
  lemma {:induction false} CompleteVpcsIff(vpcs: seq<VpcAnswer>)
    ensures CompleteVpcs(vpcs).Some? <==> AllAnswered(vpcs)
  {
    if vpcs != [] {
      CompleteVpcsIff(vpcs[..|vpcs| - 1]);
    }
  }

  /** They are then the answers to the names that are not blank, in order. */
  lemma {:induction false} CompleteVpcsPlaces(vpcs: seq<VpcAnswer>, i: nat)
    requires AllAnswered(vpcs) && i <= |vpcs|
    ensures CompleteVpcs(vpcs).Some? && |CompleteVpcs(vpcs).value| == NamesBelow(vpcs, |vpcs|)
    ensures i < |vpcs| && !vpcs[i].Blank? ==>
      && NamesBelow(vpcs, i) < |CompleteVpcs(vpcs).value|
      && CompleteVpcs(vpcs).value[NamesBelow(vpcs, i)] == Vpc(vpcs[i].ipv4.value, vpcs[i].ipv6.value)
  {
    if vpcs != [] {
      var n := |vpcs| - 1;
      CompleteVpcsPlaces(vpcs[..n], if i <= n then i else n);
      NamesPrefix(vpcs, n, n);
      if i < n {
        NamesPrefix(vpcs, n, i);
      }
    }
  }

  /** No call of a refresh failed. */
  ghost predicate NoneFailed(a: Answers) {
    a.instances.Some? && AllAnswered(a.vpcs)
  }

  lemma CompleteExact(a: Answers)
    ensures Complete(a).Some? <==> NoneFailed(a)
    ensures Complete(a).Some? ==>
      && Complete(a).value.instances == a.instances.value && (Complete(a).value.inVPC <==> |a.vpcs| > 0)
      && CompleteVpcs(a.vpcs) == Some(Complete(a).value.vpcs)
  {
    CompleteVpcsIff(a.vpcs);
  }

  lemma {:induction false} CompletePrefix(vpcs: seq<VpcAnswer>, n: nat)
    requires n <= |vpcs| && CompleteVpcs(vpcs[..n]).None?
    ensures CompleteVpcs(vpcs).None?
    decreases |vpcs| - n
  {
    if n < |vpcs| {
      assert vpcs[..n + 1][..n] == vpcs[..n];
      CompletePrefix(vpcs, n + 1);
    } else {
      assert vpcs[..n] == vpcs;
    }
  }

  /** The loop over the VPC names; None when a call fails. */
  method GatherVpcs(answers: seq<VpcAnswer>) returns (r: Option<(Gathered, Kinds)>)
    ensures r.Some? <==> AllAnswered(answers)
    ensures r.Some? ==>
      && CompleteVpcs(answers).Some?
      && r.value == (GatherAll(CompleteVpcs(answers).value), VpcKinds(CompleteVpcs(answers).value))
  {
    CompleteVpcsIff(answers);
    var nodes: Gathered, kinds: Kinds := map[], map[];
    for i := 0 to |answers|
      invariant CompleteVpcs(answers[..i]).Some?
      invariant nodes == GatherAll(CompleteVpcs(answers[..i]).value)
      invariant kinds == VpcKinds(CompleteVpcs(answers[..i]).value)
    {
      ghost var done := CompleteVpcs(answers[..i]).value;
      assert answers[..i + 1][..i] == answers[..i];
      if answers[i].Blank? {
        continue;
      }
      if answers[i].ipv4.None? {
        CompletePrefix(answers, i + 1);
        return None;
      }
      nodes := AppendIPv4(nodes, answers[i].ipv4.value);
      if answers[i].ipv6.None? {
        CompletePrefix(answers, i + 1);
        return None;
      }
      nodes, kinds := AppendIPv6(nodes, kinds, answers[i].ipv6.value);
      ghost var last := Vpc(answers[i].ipv4.value, answers[i].ipv6.value);
      assert (done + [last])[..|done|] == done;
    }
    assert answers[..|answers|] == answers;
    return Some((nodes, kinds));
  }

  datatype Provider = NotLinode | LinodeID(id: Option<int>)

  /** An address of a Kubernetes node; None is a kind other than the two. */
  datatype KubeAddress = KubeAddress(kind: Option<AddressKind>, text: string)

  /** The parts of a Kubernetes node a lookup reads; `provider` is its parsed provider ID. */
  datatype KubeNode = KubeNode(name: string, provider: Provider, addresses: seq<KubeAddress>)

  datatype LookupError = RefreshFailed | BadProviderID | NotFound | NoAddress

  /** Some public IPv4 address of the instance is an address of the node. */
  predicate SharesIP(instance: Linode, node: KubeNode) {
    exists i, j :: 0 <= i < |instance.ipv4| && 0 <= j < |node.addresses| &&
      !instance.ipv4[i].private && node.addresses[j].kind.Some? && node.addresses[j].text == instance.ipv4[i].text
  }

  predicate HasAddress(node: KubeNode) {
    exists j :: 0 <= j < |node.addresses| && node.addresses[j].kind.Some?
  }

  ghost predicate Named(nodes: map<int, Entry>, node: KubeNode) {
    exists k :: k in nodes && nodes[k].instance.name == node.name
  }

  ghost predicate Shared(nodes: map<int, Entry>, node: KubeNode) {
    exists k :: k in nodes && SharesIP(nodes[k].instance, node)
  }

  ghost predicate Has(nodes: map<int, Entry>, instance: Linode) {
    exists k :: k in nodes && nodes[k].instance == instance
  }

  /**
   * The answer to a lookup: the provider ID decides if there is one, else the name, else an IP.  The cache is
   * unlocked between two lookups, so the second may find a later content, `later`.
   */
  ghost predicate IsAnswer(nodes: map<int, Entry>, later: map<int, Entry>, node: KubeNode,
                           r: Result<Linode, LookupError>)
  {
    match node.provider
    case LinodeID(None) => r == Err(BadProviderID)
    case LinodeID(Some(id)) => r == if id in nodes then Ok(nodes[id].instance) else Err(NotFound)
    case NotLinode =>
      if Named(nodes, node) then r.Ok? && Has(nodes, r.value) && r.value.name == node.name
      else if !HasAddress(node) then r == Err(NoAddress)
      else if Shared(later, node) then r.Ok? && Has(later, r.value) && SharesIP(r.value, node)
      else r == Err(NotFound)
  }

  lemma FoundByIP(nodes: map<int, Entry>, later: map<int, Entry>, node: KubeNode, r: Result<Linode, LookupError>)
    requires node.provider.NotLinode? && !Named(nodes, node)
    requires !HasAddress(node) ==> r == Err(NoAddress)
    requires r.Ok? ==> HasAddress(node) && SharesIP(r.value, node) && Has(later, r.value)
    requires HasAddress(node) && r.Err? ==> r.error == NotFound && !Shared(later, node)
    ensures IsAnswer(nodes, later, node, r) && r != Err(RefreshFailed)
  {
  }

  /** Whatever is found under two contents of the cache is an answer under one of them. */
  ghost predicate OneContentSuffices(nodes: map<int, Entry>, later: map<int, Entry>, node: KubeNode) {
    forall r :: IsAnswer(nodes, later, node, r) ==> IsAnswer(nodes, nodes, node, r) || IsAnswer(later, later, node, r)
  }

  /**
   * A refresh between the two lookups does no harm unless it brings in the name: then each instance found by IP
   * must have that name or have been there before, and none found must mean that none was found before.
   */
  ghost predicate HarmlessBetween(nodes: map<int, Entry>, later: map<int, Entry>, node: KubeNode) {
    node.provider.NotLinode? && HasAddress(node) && Named(later, node) && !Named(nodes, node) ==>
      if Shared(later, node)
      then forall x :: Has(later, x) && SharesIP(x, node) ==> x.name == node.name || Has(nodes, x)
      else !Shared(nodes, node)
  }

  lemma TornByIP(nodes: map<int, Entry>, later: map<int, Entry>, node: KubeNode, x: Linode)
    requires node.provider.NotLinode? && HasAddress(node) && !Named(nodes, node) && Named(later, node)
    requires Has(later, x) && SharesIP(x, node)
    ensures IsAnswer(nodes, later, node, Ok(x))
    ensures IsAnswer(nodes, nodes, node, Ok(x)) <==> Has(nodes, x)
    ensures IsAnswer(later, later, node, Ok(x)) <==> x.name == node.name
  {
  }

  /** When a lookup that straddles a refresh still answers as one content of the cache would. */
  lemma OneContentIff(nodes: map<int, Entry>, later: map<int, Entry>, node: KubeNode)
    ensures OneContentSuffices(nodes, later, node) <==> HarmlessBetween(nodes, later, node)
  {
    if node.provider.NotLinode? && HasAddress(node) && Named(later, node) && !Named(nodes, node) {
      if Shared(later, node) {
        forall x | Has(later, x) && SharesIP(x, node)
          ensures OneContentSuffices(nodes, later, node) ==> x.name == node.name || Has(nodes, x)
          ensures IsAnswer(nodes, later, node, Ok(x))
        {
          TornByIP(nodes, later, node, x);
        }
      } else {
        assert IsAnswer(nodes, later, node, Err(NotFound));
      }
    }
  }

  /** An instance that a refresh finds under a new name and new addresses can be missed, though each content has it. */
  lemma MissedBetween(node: KubeNode, x: Linode, y: Linode, ips: seq<NodeIP>)
    requires node.provider.NotLinode? && HasAddress(node)
    requires x.name != node.name && SharesIP(x, node) && y.name == node.name && !SharesIP(y, node)
    ensures var nodes, later := map[x.id := Entry(x, ips)], map[y.id := Entry(y, ips)];
            && IsAnswer(nodes, nodes, node, Ok(x)) && IsAnswer(later, later, node, Ok(y))
            && IsAnswer(nodes, later, node, Err(NotFound))
  {
    var nodes, later := map[x.id := Entry(x, ips)], map[y.id := Entry(y, ips)];
    assert x.id in nodes && y.id in later;
  }

  class NodeCache {
    var nodes: map<int, Entry>
    var lastUpdate: Option<int>
    const ttl: int
    ghost var fetches: seq<Fetch>   // the complete answers so far

    /** The cache is empty, or what the last complete answer stands for. */
    ghost predicate Valid()
      reads this
    {
      && (lastUpdate.None? <==> fetches == [])
      && nodes == if fetches == [] then map[] else NodesOf(fetches[|fetches| - 1])
    }

    constructor (ttl: int)
      ensures Valid() && fetches == [] && this.ttl == ttl
    {
      nodes, lastUpdate, this.ttl, fetches := map[], None, ttl, [];
    }

    predicate Expired(now: int)
      reads this
    {
      lastUpdate.None? || now - lastUpdate.value >= ttl
    }

    /** refreshInstances */
    method RefreshInstances(answers: Answers, now: int, end: int) returns (ok: bool)
      requires Valid()
      modifies this
      ensures Valid()
      ensures ok <==> (old(lastUpdate).Some? && now - old(lastUpdate).value < ttl) || NoneFailed(answers)
      ensures ok && (old(lastUpdate).None? || now - old(lastUpdate).value >= ttl) ==>
        Complete(answers).Some? && fetches == old(fetches) + [Complete(answers).value] && lastUpdate == Some(end)
      ensures !ok || (old(lastUpdate).Some? && now - old(lastUpdate).value < ttl) ==>
        nodes == old(nodes) && lastUpdate == old(lastUpdate) && fetches == old(fetches)
    {
      if !Expired(now) {
        return true;
      }
      if answers.instances.None? {
        return false;
      }
      CompleteExact(answers);
      var gathered := GatherVpcs(answers.vpcs);
      if gathered.None? {
        return false;
      }
      ghost var f := Complete(answers).value;
      var instances, vpcNodes, kinds := answers.instances.value, gathered.value.0, gathered.value.1;
      var newNodes: map<int, Entry> := map[];
      for i := 0 to |instances|
        invariant newNodes == NodesUpTo(f, i) && fetches == old(fetches)
      {
        var instance := instances[i];
        GatherAllAt(f.vpcs, instance.id);
        if |answers.vpcs| > 0 && |At(vpcNodes, instance.id)| == 0 {
          continue;
        }
        var ips := GetInstanceAddresses(instance, At(vpcNodes, instance.id), kinds);
        newNodes := newNodes[instance.id := Entry(instance, ips)];
      }
      nodes, lastUpdate, fetches := newNodes, Some(end), fetches + [f];
      return true;
    }

    method LinodeByID(id: int) returns (r: Option<Linode>)
      ensures r == if id in nodes then Some(nodes[id].instance) else None
    {
      return if id in nodes then Some(nodes[id].instance) else None;
    }

    method LinodeByName(name: string) returns (r: Option<Linode>)
      ensures r.None? ==> forall k :: k in nodes ==> nodes[k].instance.name != name
      ensures r.Some? ==> r.value.name == name && Has(nodes, r.value)
    {
      var keys := Listing(nodes.Keys);
      for i := 0 to |keys|
        invariant forall j :: 0 <= j < i ==> nodes[keys[j]].instance.name != name
      {
        var k := keys[i];
        assert k in keys;
        if nodes[k].instance.name == name {
          return Some(nodes[k].instance);
        }
      }
      return None;
    }

    method LinodeByIP(node: KubeNode) returns (r: Result<Linode, LookupError>)
      ensures !HasAddress(node) ==> r == Err(NoAddress)
      ensures r.Ok? ==> HasAddress(node) && SharesIP(r.value, node) && Has(nodes, r.value)
      ensures HasAddress(node) && r.Err? ==> r.error == NotFound && !Shared(nodes, node)
    {
      var texts := GatherTexts(node);
      if texts == [] {
        return Err(NoAddress);
      }
      var keys := Listing(nodes.Keys);
      for i := 0 to |keys|
        invariant forall j :: 0 <= j < i ==> !SharesIP(nodes[keys[j]].instance, node)
      {
        var k := keys[i];
        assert k in keys;
        var shares := AnyShared(nodes[k].instance, node, texts);
        if shares {
          return Ok(nodes[k].instance);
        }
      }
      return Err(NotFound);
    }

    /** The lookups that come before the one by IP; None when neither applies. */
    method LinodeByIDOrName(node: KubeNode) returns (r: Option<Result<Linode, LookupError>>)
      ensures r.None? ==> node.provider.NotLinode? && !Named(nodes, node)
      ensures r.Some? ==> r.value != Err(RefreshFailed) && IsAnswer(nodes, nodes, node, r.value)
    {
      if node.provider.LinodeID? {
        if node.provider.id.None? {
          return Some(Err(BadProviderID));
        }
        var byID := LinodeByID(node.provider.id.value);
        return Some(if byID.Some? then Ok(byID.value) else Err(NotFound));
      }
      var byName := LinodeByName(node.name);
      return if byName.Some? then Some(Ok(byName.value)) else None;
    }

    /** Other lookups refresh the cache while it is not locked. */
    method Interfere()
      requires Valid()
      modifies this
      ensures Valid() && old(fetches) <= fetches
    {
      var calls: int := *;
      calls := if calls < 0 then 0 else calls;
      for i := 0 to calls
        invariant Valid() && old(fetches) <= fetches
      {
        var answers: Answers, now: int, end: int := *, *, *;
        var _ := RefreshInstances(answers, now, end);
      }
    }

    /** The lookups, one after the other; `first` and `second` are the fetches they were made in. */
    method FindLinode(node: KubeNode) returns (r: Result<Linode, LookupError>, ghost first: nat, ghost second: nat)
      requires Valid() && fetches != []
      modifies this
      ensures Valid() && old(fetches) <= fetches
      ensures |old(fetches)| - 1 <= first <= second < |fetches|
      ensures IsAnswer(NodesOf(fetches[first]), NodesOf(fetches[second]), node, r)
      ensures r != Err(RefreshFailed)
    {
      Interfere();
      first, second := |fetches| - 1, |fetches| - 1;
      ghost var was := nodes;
      var found := LinodeByIDOrName(node);
      if found.Some? {
        return found.value, first, second;
      }
      Interfere();
      second := |fetches| - 1;
      r := LinodeByIP(node);
      FoundByIP(was, nodes, node, r);
      assert NodesOf(fetches[first]) == was && NodesOf(fetches[second]) == nodes;
    }

    /**
     * LookupLinode: `first` and `second` are the complete fetches the lookups by ID or name and by IP were made in.
     * They were in the cache and younger than the TTL, or were made since the call began.
     */
    method LookupLinode(node: KubeNode, answers: Answers, now: int, end: int)
      returns (r: Result<Linode, LookupError>, ghost first: nat, ghost second: nat)
      requires Valid()
      modifies this
      ensures Valid() && old(fetches) <= fetches
      ensures r == Err(RefreshFailed) <==>
        (old(lastUpdate).None? || now - old(lastUpdate).value >= ttl) && !NoneFailed(answers)
      ensures r == Err(RefreshFailed) ==>
        nodes == old(nodes) && lastUpdate == old(lastUpdate) && fetches == old(fetches)
      ensures r != Err(RefreshFailed) ==>
        && first <= second < |fetches|
        && IsAnswer(NodesOf(fetches[first]), NodesOf(fetches[second]), node, r)
      ensures r != Err(RefreshFailed) ==>
        if old(lastUpdate).Some? && now - old(lastUpdate).value < ttl then first >= |old(fetches)| - 1
        else first >= |old(fetches)| && Some(fetches[|old(fetches)|]) == Complete(answers)
    {
      first, second := 0, 0;
      var ok := RefreshInstances(answers, now, end);
      if !ok {
        return Err(RefreshFailed), first, second;
      }
      r, first, second := FindLinode(node);
    }
  }

  /** The text is an internal or external address among the first n of the node. */
  predicate IsAddress(node: KubeNode, n: nat, text: string)
    requires n <= |node.addresses|
  {
    exists j :: 0 <= j < n && node.addresses[j].kind.Some? && node.addresses[j].text == text
  }

  method GatherTexts(node: KubeNode) returns (texts: seq<string>)
    ensures forall t :: t in texts <==> IsAddress(node, |node.addresses|, t)
    ensures texts == [] <==> !HasAddress(node)
  {
    texts := [];
    for i := 0 to |node.addresses|
      invariant forall t :: t in texts <==> IsAddress(node, i, t)
      invariant texts == [] <==> forall j :: 0 <= j < i ==> node.addresses[j].kind.None?
    {
      if node.addresses[i].kind.Some? {
        texts := texts + [node.addresses[i].text];
      }
    }
  }

  method AnyShared(instance: Linode, node: KubeNode, texts: seq<string>) returns (shares: bool)
    requires forall t :: t in texts <==> IsAddress(node, |node.addresses|, t)
    ensures shares <==> SharesIP(instance, node)
  {
    for i := 0 to |instance.ipv4|
      invariant forall k :: 0 <= k < i ==> instance.ipv4[k].private || instance.ipv4[k].text !in texts
    {
      if !instance.ipv4[i].private && instance.ipv4[i].text in texts {
        return true;
      }
    }
    return false;
  }
}
