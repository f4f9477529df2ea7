/**
 * The firewall compiler: an access list and a service become chunked firewall rules
 * (cloud/linode/services/firewalls.go), and the rules mean what the list says.
 * Labels and descriptions of rules play no part in either and are not modelled.
 */
module Firewall {
  import opened Wrappers
  import opened Ports

  const MAX_IPS := 255
  const MAX_RULES := 25

  datatype Policy = Accept | Drop

  /** linodego.NetworkAddresses; None is a nil slice. */
  datatype Addresses = Addresses(ipv4: Option<seq<string>>, ipv6: Option<seq<string>>)

  datatype Rule = Rule(action: Policy, ports: string, addresses: Addresses)

  datatype Rules = Rules(inbound: seq<Rule>, inboundPolicy: Policy, outboundPolicy: Policy)

  /** The decoded firewall-acl annotation. */
  datatype Acl = Acl(allowList: Option<Addresses>, denyList: Option<Addresses>)

  type ServicePorts = seq<Int32>

  datatype Error = TooManyIPs | InvalidConfig

  /** The elements of a slice that may be nil. */
  function Elements(o: Option<seq<string>>): seq<string> {
    if o.Some? then o.value else []
  }

  function All(a: Addresses): seq<string> {
    Elements(a.ipv4) + Elements(a.ipv6)
  }

  // ---------------------------------------------------------------------------
  // Chunks
  // ---------------------------------------------------------------------------

  function Chunks(ips: seq<string>): seq<seq<string>> {
    if |ips| <= MAX_IPS then [ips] else [ips[..MAX_IPS]] + Chunks(ips[MAX_IPS..])
  }

  function Flatten(chunks: seq<seq<string>>): seq<string> {
    if chunks == [] then [] else chunks[0] + Flatten(chunks[1..])
  }

  /** One chunk for up to 255 addresses, then as many as it takes. */
  function ChunkCount(n: nat): nat {
    if n <= MAX_IPS then 1 else (n + MAX_IPS - 1) / MAX_IPS
  }

  /** Chunking cuts the list without losing, adding or moving an address. */
  lemma {:induction false} ChunksPartition(ips: seq<string>)
    ensures Flatten(Chunks(ips)) == ips
    ensures |Chunks(ips)| == ChunkCount(|ips|)
    ensures forall i :: 0 <= i < |Chunks(ips)| ==> |Chunks(ips)[i]| <= 255
    ensures forall i :: 0 <= i < |Chunks(ips)| - 1 ==> |Chunks(ips)[i]| == 255
  {
    if |ips| <= MAX_IPS {
      assert Flatten([ips]) == ips + Flatten([]);
    } else {
      ChunksPartition(ips[MAX_IPS..]);
      assert Chunks(ips)[1..] == Chunks(ips[MAX_IPS..]);
      assert ips[..MAX_IPS] + ips[MAX_IPS..] == ips;
    }
  }

  lemma {:induction false} NextChunk(ips: seq<string>, start: nat)
    requires start + MAX_IPS < |ips|
    ensures Chunks(ips[start..]) == [ips[start..start + MAX_IPS]] + Chunks(ips[start + MAX_IPS..])
  {
    assert ips[start..][..MAX_IPS] == ips[start..start + MAX_IPS];
    assert ips[start..][MAX_IPS..] == ips[start + MAX_IPS..];
  }

  /** chunkIPs: cuts off full chunks while more than one chunk's worth remains. */
  method ChunkIPs(ips: seq<string>) returns (chunks: seq<seq<string>>)
    ensures chunks == Chunks(ips)
  {
    chunks := [];
    var ipCount := |ips|;
    if ipCount <= MAX_IPS {
      return [ips];
    }
    var chunkCount := 0;
    while ipCount > MAX_IPS
      invariant 0 <= chunkCount && chunkCount * MAX_IPS + ipCount == |ips| && ipCount > 0
      invariant Chunks(ips) == chunks + Chunks(ips[chunkCount * MAX_IPS..])
    {
      var start, end := chunkCount * MAX_IPS, (chunkCount + 1) * MAX_IPS;
      NextChunk(ips, start);
      chunks := chunks + [ips[start..end]];
      chunkCount := chunkCount + 1;
      ipCount := ipCount - MAX_IPS;
    }
    chunks := chunks + [ips[chunkCount * MAX_IPS..]];
  }

  // ---------------------------------------------------------------------------
  // Compilation
  // ---------------------------------------------------------------------------

  datatype Family = IPv4 | IPv6

  /** A rule for one chunk of one family; the chunk of a nil slice is nil. */
  function ChunkRule(action: Policy, ports: string, family: Family, list: Option<seq<string>>,
                     chunk: seq<string>): Rule
  {
    var addresses := if list.Some? then Some(chunk) else None;
    Rule(action, ports, if family == IPv4 then Addresses(addresses, None) else Addresses(None, addresses))
  }

  function ChunkRules(action: Policy, ports: string, family: Family, list: Option<seq<string>>,
                      chunks: seq<seq<string>>): (rules: seq<Rule>)
    ensures |rules| == |chunks|
    ensures forall i :: 0 <= i < |chunks| ==> rules[i] == ChunkRule(action, ports, family, list, chunks[i])
  {
    seq(|chunks|, i requires 0 <= i < |chunks| => ChunkRule(action, ports, family, list, chunks[i]))
  }

  /** The rules processACL appends. */
  function CompiledRules(action: Policy, ports: string, ips: Addresses): seq<Rule> {
    if |Elements(ips.ipv4)| + |Elements(ips.ipv6)| > MAX_IPS then
      ChunkRules(action, ports, IPv4, ips.ipv4, Chunks(Elements(ips.ipv4)))
      + ChunkRules(action, ports, IPv6, ips.ipv6, Chunks(Elements(ips.ipv6)))
    else [Rule(action, ports, ips)]
  }

  function Opposite(p: Policy): Policy {
    if p == Accept then Drop else Accept
  }

  predicate ExactlyOneList(acl: Acl) {
    acl.allowList.Some? != acl.denyList.Some?
  }

  function AclAction(acl: Acl): Policy {
    if acl.denyList.Some? then Drop else Accept
  }

  function AclList(acl: Acl): Addresses
    requires ExactlyOneList(acl)
  {
    if acl.denyList.Some? then acl.denyList.value else acl.allowList.value
  }

  /** What CreateFirewallOptsForSvc makes of an annotation and the ports of the service. */
  function Compile(acl: Acl, ports: ServicePorts): Result<Rules, Error> {
    if !ExactlyOneList(acl) then Err(InvalidConfig)
    else
      var rules := CompiledRules(AclAction(acl), PrintPorts(ports), AclList(acl));
      if |rules| > MAX_RULES then Err(TooManyIPs) else Ok(Rules(rules, Opposite(AclAction(acl)), Accept))
  }

  /** The rules part of linodego.FirewallCreateOptions, filled in place. */
  class CreateOptions {
    var inbound: seq<Rule>
    var inboundPolicy: Policy
    var outboundPolicy: Policy

    constructor ()
      ensures inbound == []
    {
      inbound, inboundPolicy, outboundPolicy := [], Accept, Accept;
    }
  }

  /** The loop of processACL over the chunks of one family. */
  method AppendChunkRules(opts: CreateOptions, aclType: Policy, ports: string, family: Family,
                          list: Option<seq<string>>)
    modifies opts`inbound
    ensures opts.inbound == old(opts.inbound) + ChunkRules(aclType, ports, family, list, Chunks(Elements(list)))
  {
    var chunks := ChunkIPs(Elements(list));
    ghost var all := ChunkRules(aclType, ports, family, list, chunks);
    for i := 0 to |chunks|
      invariant opts.inbound == old(opts.inbound) + all[..i]
    {
      opts.inbound := opts.inbound + [ChunkRule(aclType, ports, family, list, chunks[i])];
    }
  }

  /** processACL: appends the rules, sets the policies, and only then counts. */
  method ProcessACL(opts: CreateOptions, aclType: Policy, ports: string, ips: Addresses) returns (ok: bool)
    modifies opts
    ensures opts.inbound == old(opts.inbound) + CompiledRules(aclType, ports, ips)
    ensures opts.inboundPolicy == Opposite(aclType) && opts.outboundPolicy == Accept
    ensures ok <==> |opts.inbound| <= MAX_RULES
  {
    if |Elements(ips.ipv4)| + |Elements(ips.ipv6)| > MAX_IPS {
      AppendChunkRules(opts, aclType, ports, IPv4, ips.ipv4);
      AppendChunkRules(opts, aclType, ports, IPv6, ips.ipv6);
    } else {
      opts.inbound := opts.inbound + [Rule(aclType, ports, ips)];
    }
    opts.outboundPolicy := Accept;
    if aclType == Accept {
      opts.inboundPolicy := Drop;
    } else {
      opts.inboundPolicy := Accept;
    }
    return |opts.inbound| <= MAX_RULES;
  }

  /** The loop of CreateFirewallOptsForSvc that prints the service ports. */
  method PrintServicePorts(ports: ServicePorts) returns (text: string)
    ensures text == PrintPorts(ports)
  {
    var servicePorts: seq<string> := [];
    ghost var all := PrintEach(ports);
    for i := 0 to |ports|
      invariant servicePorts == all[..i]
    {
      servicePorts := servicePorts + [Itoa(ports[i])];
    }
    assert all[..|ports|] == all;
    text := Join(servicePorts, ',');
  }

  /** CreateFirewallOptsForSvc on a decoded annotation. */
  method CreateFirewallOptsForSvc(acl: Acl, ports: ServicePorts) returns (r: Result<Rules, Error>)
    ensures r == Compile(acl, ports)
  {
    var portsString := PrintServicePorts(ports);
    if (acl.allowList.Some? && acl.denyList.Some?) || (acl.allowList.None? && acl.denyList.None?) {
      return Err(InvalidConfig);
    }
    var aclType, ips := Accept, acl.allowList;
    if acl.denyList.Some? {
      aclType, ips := Drop, acl.denyList;
    }
    var opts := new CreateOptions();
    var ok := ProcessACL(opts, aclType, portsString, ips.value);
    assert [] + CompiledRules(aclType, portsString, ips.value) == CompiledRules(aclType, portsString, ips.value);
    if !ok {
      return Err(TooManyIPs);
    }
    return Ok(Rules(opts.inbound, opts.inboundPolicy, opts.outboundPolicy));
  }

  // ---------------------------------------------------------------------------
  // What rules mean
  // ---------------------------------------------------------------------------

  datatype Packet = Packet(source: string, port: int)

  /** Whether an address of a rule covers a source is left open. */
  type Coverage = (string, string) -> bool

  ghost predicate Covered(covers: Coverage, addresses: seq<string>, source: string) {
    exists a :: a in addresses && covers(a, source)
  }

  ghost predicate Matches(covers: Coverage, rule: Rule, p: Packet) {
    && PortsOf(rule.ports).Some? && p.port in PortsOf(rule.ports).value
    && Covered(covers, All(rule.addresses), p.source)
  }

  /** The first matching rule decides, otherwise the inbound policy. */
  ghost function Verdict(covers: Coverage, rules: seq<Rule>, policy: Policy, p: Packet): Policy {
    if rules == [] then policy
    else if Matches(covers, rules[0], p) then rules[0].action
    else Verdict(covers, rules[1..], policy, p)
  }

  /** Rules that share action and ports act as one rule with all their addresses. */
  ghost predicate Uniform(rules: seq<Rule>, action: Policy, ports: string) {
    forall i :: 0 <= i < |rules| ==> rules[i].action == action && rules[i].ports == ports
  }

  lemma {:induction false} UniformVerdict(covers: Coverage, rules: seq<Rule>, action: Policy, ports: string,
                                          policy: Policy, p: Packet)
    requires Uniform(rules, action, ports)
    ensures Verdict(covers, rules, policy, p) ==
              if exists i :: 0 <= i < |rules| && Matches(covers, rules[i], p) then action else policy
  {
    if rules != [] {
      UniformVerdict(covers, rules[1..], action, ports, policy, p);
      assert forall i :: 1 <= i < |rules| ==> rules[i] == rules[1..][i - 1];
      assert forall i :: 0 <= i < |rules[1..]| ==> rules[1..][i] == rules[i + 1];
    }
  }

  // ---------------------------------------------------------------------------
  // The compiler is correct
  // ---------------------------------------------------------------------------

  lemma {:induction false} FlattenMember(chunks: seq<seq<string>>, a: string)
    ensures a in Flatten(chunks) <==> exists i :: 0 <= i < |chunks| && a in chunks[i]
  {
    if chunks != [] {
      FlattenMember(chunks[1..], a);
      assert forall i :: 1 <= i < |chunks| ==> chunks[i] == chunks[1..][i - 1];
      assert forall i :: 0 <= i < |chunks[1..]| ==> chunks[1..][i] == chunks[i + 1];
    }
  }

  /** Some rule lists the address. */
  ghost predicate Lists(rules: seq<Rule>, a: string) {
    exists i :: 0 <= i < |rules| && a in All(rules[i].addresses)
  }

  /** Every listed address is in some chunk rule, and the chunk rules list nothing else. */
  lemma {:induction false} ChunkRulesCover(action: Policy, ports: string, family: Family, list: Option<seq<string>>,
                                           a: string)
    ensures a in Elements(list) <==> Lists(ChunkRules(action, ports, family, list, Chunks(Elements(list))), a)
  {
    var chunks := Chunks(Elements(list));
    var rules := ChunkRules(action, ports, family, list, chunks);
    ChunksPartition(Elements(list));
    FlattenMember(chunks, a);
    assert forall i :: 0 <= i < |rules| && list.Some? ==> (a in All(rules[i].addresses) <==> a in chunks[i]);
  }

  lemma ListsConcat(r: seq<Rule>, q: seq<Rule>, a: string)
    ensures Lists(r + q, a) <==> Lists(r, a) || Lists(q, a)
  {
    if i :| 0 <= i < |q| && a in All(q[i].addresses) {
      assert (r + q)[|r| + i] == q[i];
    }
    if i :| 0 <= i < |r| && a in All(r[i].addresses) {
      assert (r + q)[i] == r[i];
    }
  }

  lemma {:induction false} CompiledRulesCover(action: Policy, ports: string, ips: Addresses, a: string)
    ensures Uniform(CompiledRules(action, ports, ips), action, ports)
    ensures a in All(ips) <==> Lists(CompiledRules(action, ports, ips), a)
  {
    if |Elements(ips.ipv4)| + |Elements(ips.ipv6)| > MAX_IPS {
      var r4 := ChunkRules(action, ports, IPv4, ips.ipv4, Chunks(Elements(ips.ipv4)));
      var r6 := ChunkRules(action, ports, IPv6, ips.ipv6, Chunks(Elements(ips.ipv6)));
      ChunkRulesCover(action, ports, IPv4, ips.ipv4, a);
      ChunkRulesCover(action, ports, IPv6, ips.ipv6, a);
      ListsConcat(r4, r6, a);
    } else {
      assert [Rule(action, ports, ips)][0].addresses == ips;
    }
  }

  /** Compiled rules act on every packet as one rule with all the addresses of the list would. */
  lemma {:induction false} CompiledVerdict(covers: Coverage, action: Policy, ports: string, ips: Addresses,
                                           policy: Policy, p: Packet)
    ensures Verdict(covers, CompiledRules(action, ports, ips), policy, p) ==
              if Matches(covers, Rule(action, ports, ips), p) then action else policy
  {
    var rules := CompiledRules(action, ports, ips);
    CompiledRulesCover(action, ports, ips, "");
    UniformVerdict(covers, rules, action, ports, policy, p);
    if i :| 0 <= i < |rules| && Matches(covers, rules[i], p) {
      var a :| a in All(rules[i].addresses) && covers(a, p.source);
      CompiledRulesCover(action, ports, ips, a);
    }
    if Matches(covers, Rule(action, ports, ips), p) {
      var a :| a in All(ips) && covers(a, p.source);
      CompiledRulesCover(action, ports, ips, a);
      var i :| 0 <= i < |rules| && a in All(rules[i].addresses);
      assert Matches(covers, rules[i], p);
    }
  }

  /** Cutting a list into chunks changes no verdict. */
  lemma {:induction false} ChunkingChangesNoVerdict(covers: Coverage, action: Policy, ports: string, ips: Addresses,
                                                    policy: Policy, p: Packet)
    ensures Verdict(covers, CompiledRules(action, ports, ips), policy, p)
         == Verdict(covers, [Rule(action, ports, ips)], policy, p)
  {
    CompiledVerdict(covers, action, ports, ips, policy, p);
    assert [Rule(action, ports, ips)][1..] == [];
  }

  /**
   * An allow list accepts exactly the packets from a listed source to a service port; a deny list
   * drops exactly those.
   */
  lemma {:induction false} CompiledMeansAcl(covers: Coverage, acl: Acl, ports: ServicePorts, p: Packet)
    requires Compile(acl, ports).Ok? && Printable(ports)
    ensures var r := Compile(acl, ports).value;
            var named := p.port in ports && Covered(covers, All(AclList(acl)), p.source);
            && (acl.allowList.Some? ==> (Verdict(covers, r.inbound, r.inboundPolicy, p) == Accept <==> named))
            && (acl.denyList.Some? ==> (Verdict(covers, r.inbound, r.inboundPolicy, p) == Drop <==> named))
            && r.outboundPolicy == Accept
  {
    PortsRoundTrip(ports);
    var r := Compile(acl, ports).value;
    CompiledVerdict(covers, AclAction(acl), PrintPorts(ports), AclList(acl), r.inboundPolicy, p);
  }

  /**
   * Compilation of a proper list fails exactly when it needs more than 25 rules, of which it needs one for up to 255
   * addresses and else one for every 255 of each family, at least one; no rule has more than 255 addresses.
   */
  lemma {:induction false} CompileLimits(acl: Acl, ports: ServicePorts)
    ensures Compile(acl, ports) == Err(InvalidConfig) <==> (acl.allowList.Some? <==> acl.denyList.Some?)
    ensures ExactlyOneList(acl) ==>
              var n4, n6 := |Elements(AclList(acl).ipv4)|, |Elements(AclList(acl).ipv6)|;
              var n := if n4 + n6 <= 255 then 1 else RoundedUp(n4) + RoundedUp(n6);
              && (Compile(acl, ports) == Err(TooManyIPs) <==> n > 25)
              && (Compile(acl, ports).Ok? ==> |Compile(acl, ports).value.inbound| == n)
    ensures Compile(acl, ports).Ok? ==>
              var rules := Compile(acl, ports).value.inbound;
              1 <= |rules| <= 25 && forall i :: 0 <= i < |rules| ==> |All(rules[i].addresses)| <= 255
  {
    if ExactlyOneList(acl) {
      ChunksPartition(Elements(AclList(acl).ipv4));
      ChunksPartition(Elements(AclList(acl).ipv6));
    }
  }

  /** The number of chunks of 255 that `n` addresses fill, at least one. */
  function RoundedUp(n: nat): nat {
    if n == 0 then 1 else (n + 254) / 255
  }
}
