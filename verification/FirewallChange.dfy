/**
 * The change test that decides whether installed rules are rewritten: ipsChanged, isPortsChanged and
 * ruleChanged of cloud/linode/services/firewalls.go.  It compares lengths and one-way membership, and the
 * ports of the first rule only.
 */
module FirewallChange {
  import opened Wrappers
  import opened Ports
  import opened Firewall

  // ---------------------------------------------------------------------------
  // The test
  // ---------------------------------------------------------------------------

  function IPv4Lists(rules: seq<Rule>): seq<seq<string>> {
    seq(|rules|, i requires 0 <= i < |rules| => Elements(rules[i].addresses.ipv4))
  }

  function IPv6Lists(rules: seq<Rule>): seq<seq<string>> {
    seq(|rules|, i requires 0 <= i < |rules| => Elements(rules[i].addresses.ipv6))
  }

  function RuleIPv4s(rules: seq<Rule>): seq<string> {
    Flatten(IPv4Lists(rules))
  }

  function RuleIPv6s(rules: seq<Rule>): seq<string> {
    Flatten(IPv6Lists(rules))
  }

  /** A different number of addresses, or an address that no rule has. */
  predicate ListChanged(list: Option<seq<string>>, installed: seq<string>) {
    || |Elements(list)| != |installed|
    || exists i :: 0 <= i < |Elements(list)| && Elements(list)[i] !in installed
  }

  predicate IpsChanged(ips: Option<Addresses>, rules: seq<Rule>) {
    ips.Some? && (ListChanged(ips.value.ipv4, RuleIPv4s(rules)) || ListChanged(ips.value.ipv6, RuleIPv6s(rules)))
  }

  /** The ports of the first rule and the ports of the service, as sets. */
  predicate PortsChanged(rules: seq<Rule>, ports: ServicePorts) {
    || rules == [] || rules[0].ports == "" || PortsOf(rules[0].ports).None?
    || (set p | p in PortsOf(rules[0].ports).value) != (set p: int | p in ports)
  }

  /** ruleChanged */
  predicate RuleChanged(was: Rules, acl: Acl, ports: ServicePorts) {
    if acl.allowList.Some? && PolicyChanged(was, Drop, acl.allowList.value) then true
    else if acl.denyList.Some? && PolicyChanged(was, Accept, acl.denyList.value) then true
    else
      var ips := if acl.denyList.Some? then acl.denyList else acl.allowList;
      IpsChanged(ips, was.inbound) || PortsChanged(was.inbound, ports)
  }

  /** The part of ruleChanged that looks at one list: the inbound policy, and rules gone missing. */
  predicate PolicyChanged(was: Rules, policy: Policy, list: Addresses) {
    was.inboundPolicy != policy || ((list.ipv4.Some? || list.ipv6.Some?) && was.inbound == [])
  }

  lemma {:induction false} FlattenConcat(x: seq<seq<string>>, y: seq<seq<string>>)
    ensures Flatten(x + y) == Flatten(x) + Flatten(y)
  {
    if x == [] {
      assert x + y == y;
    } else {
      FlattenConcat(x[1..], y);
      assert (x + y)[1..] == x[1..] + y;
      assert x[0] + (Flatten(x[1..]) + Flatten(y)) == x[0] + Flatten(x[1..]) + Flatten(y);
    }
  }

  lemma {:induction false} RuleIPsConcat(r: seq<Rule>, q: seq<Rule>)
    ensures RuleIPv4s(r + q) == RuleIPv4s(r) + RuleIPv4s(q)
    ensures RuleIPv6s(r + q) == RuleIPv6s(r) + RuleIPv6s(q)
  {
    assert IPv4Lists(r + q) == IPv4Lists(r) + IPv4Lists(q);
    assert IPv6Lists(r + q) == IPv6Lists(r) + IPv6Lists(q);
    FlattenConcat(IPv4Lists(r), IPv4Lists(q));
    FlattenConcat(IPv6Lists(r), IPv6Lists(q));
  }

  lemma {:induction false} FlattenOne(x: seq<string>)
    ensures Flatten([x]) == x
  {
  }

  lemma {:induction false} RuleIPsOne(rule: Rule)
    ensures RuleIPv4s([rule]) == Elements(rule.addresses.ipv4)
    ensures RuleIPv6s([rule]) == Elements(rule.addresses.ipv6)
  {
    FlattenOne(Elements(rule.addresses.ipv4));
    FlattenOne(Elements(rule.addresses.ipv6));
    assert IPv4Lists([rule]) == [Elements(rule.addresses.ipv4)];
    assert IPv6Lists([rule]) == [Elements(rule.addresses.ipv6)];
  }

  /** The membership loop of ipsChanged. */
  method AnyMissing(list: seq<string>, installed: seq<string>) returns (missing: bool)
    ensures missing <==> exists i :: 0 <= i < |list| && list[i] !in installed
  {
    for i := 0 to |list|
      invariant forall j :: 0 <= j < i ==> list[j] in installed
    {
      if list[i] !in installed {
        return true;
      }
    }
    return false;
  }

  /** The first loop of ipsChanged: the addresses of all rules, family by family. */
  method GatherIPs(rules: seq<Rule>) returns (ruleIPv4s: seq<string>, ruleIPv6s: seq<string>)
    ensures ruleIPv4s == RuleIPv4s(rules) && ruleIPv6s == RuleIPv6s(rules)
  {
    ruleIPv4s, ruleIPv6s := [], [];
    for k := 0 to |rules|
      invariant ruleIPv4s == RuleIPv4s(rules[..k]) && ruleIPv6s == RuleIPv6s(rules[..k])
    {
      RuleIPsConcat(rules[..k], [rules[k]]);
      RuleIPsOne(rules[k]);
      assert rules[..k + 1] == rules[..k] + [rules[k]];
      if rules[k].addresses.ipv4.Some? {
        ruleIPv4s := ruleIPv4s + rules[k].addresses.ipv4.value;
      }
      if rules[k].addresses.ipv6.Some? {
        ruleIPv6s := ruleIPv6s + rules[k].addresses.ipv6.value;
      }
    }
    assert rules[..|rules|] == rules;
  }

  /** ipsChanged: gathers the addresses of all rules, then compares family by family. */
  method IpsChangedLoop(ips: Option<Addresses>, rules: seq<Rule>) returns (changed: bool)
    ensures changed <==> IpsChanged(ips, rules)
  {
    if ips.None? {
      return false;
    }
    var ruleIPv4s, ruleIPv6s := GatherIPs(rules);
    var list := ips.value;
    if |ruleIPv4s| > 0 && list.ipv4.None? {
      return true;
    }
    if |ruleIPv6s| > 0 && list.ipv6.None? {
      return true;
    }
    if list.ipv4.Some? {
      if |list.ipv4.value| != |ruleIPv4s| {
        return true;
      }
      var missing := AnyMissing(list.ipv4.value, ruleIPv4s);
      if missing {
        return true;
      }
    }
    if list.ipv6.Some? {
      if |list.ipv6.value| != |ruleIPv6s| {
        return true;
      }
      var missing := AnyMissing(list.ipv6.value, ruleIPv6s);
      if missing {
        return true;
      }
    }
    return false;
  }

  /** The loops of isPortsChanged: every element of a list is a key of the map of the other. */
  method AllIn(list: seq<int>, keys: set<int>) returns (all: bool)
    ensures all <==> forall i :: 0 <= i < |list| ==> list[i] in keys
  {
    for i := 0 to |list|
      invariant forall j :: 0 <= j < i ==> list[j] in keys
    {
      if list[i] !in keys {
        return false;
      }
    }
    return true;
  }

  /** isPortsChanged: reads the ports of the first rule only. */
  method IsPortsChanged(rules: seq<Rule>, ports: ServicePorts) returns (changed: bool)
    ensures changed <==> PortsChanged(rules, ports)
  {
    if |rules| == 0 {
      return true;
    }
    var oldPorts := rules[0].ports;
    if oldPorts == "" {
      return true;
    }
    var oldPortsSlice := ParsePorts(oldPorts);
    if oldPortsSlice.None? {
      return true;
    }
    var oldPortsMap := set p | p in oldPortsSlice.value;
    var svcPortsMap: set<int> := set p: int | p in ports;
    var kept := AllIn(ports, oldPortsMap);
    if !kept {
      var i :| 0 <= i < |ports| && ports[i] !in oldPortsMap;
      assert (ports[i] as int) in svcPortsMap;
      return true;
    }
    var known := AllIn(oldPortsSlice.value, svcPortsMap);
    if !known {
      return true;
    }
    assert oldPortsMap == svcPortsMap;
    return false;
  }

  /** The part of ruleChanged that looks at one list. */
  method IsPolicyChanged(was: Rules, policy: Policy, list: Addresses) returns (changed: bool)
    ensures changed <==> PolicyChanged(was, policy, list)
  {
    if was.inboundPolicy != policy {
      return true;
    }
    if (list.ipv4.Some? || list.ipv6.Some?) && |was.inbound| == 0 {
      return true;
    }
    return false;
  }

  /** ruleChanged */
  method IsRuleChanged(was: Rules, acl: Acl, ports: ServicePorts) returns (changed: bool)
    ensures changed <==> RuleChanged(was, acl, ports)
  {
    var ips := acl.allowList;
    if acl.allowList.Some? {
      changed := IsPolicyChanged(was, Drop, acl.allowList.value);
      if changed {
        return;
      }
    }
    if acl.denyList.Some? {
      changed := IsPolicyChanged(was, Accept, acl.denyList.value);
      if changed {
        return;
      }
      ips := acl.denyList;
    }
    changed := IpsChangedLoop(ips, was.inbound);
    if changed {
      return;
    }
    changed := IsPortsChanged(was.inbound, ports);
  }

  // ---------------------------------------------------------------------------
  // What the test compares
  // ---------------------------------------------------------------------------

  /** The number of addresses in rules, family by family. */
  function Count4(rules: seq<Rule>): nat {
    if rules == [] then 0 else |Elements(rules[0].addresses.ipv4)| + Count4(rules[1..])
  }

  function Count6(rules: seq<Rule>): nat {
    if rules == [] then 0 else |Elements(rules[0].addresses.ipv6)| + Count6(rules[1..])
  }

  lemma {:induction false} Counts(rules: seq<Rule>)
    ensures |RuleIPv4s(rules)| == Count4(rules) && |RuleIPv6s(rules)| == Count6(rules)
  {
    if rules != [] {
      Counts(rules[1..]);
      RuleIPsOne(rules[0]);
      RuleIPsConcat([rules[0]], rules[1..]);
      assert [rules[0]] + rules[1..] == rules;
    }
  }

  lemma RuleIPsMember(rules: seq<Rule>, a: string)
    ensures a in RuleIPv4s(rules) <==> exists i :: 0 <= i < |rules| && a in Elements(rules[i].addresses.ipv4)
    ensures a in RuleIPv6s(rules) <==> exists i :: 0 <= i < |rules| && a in Elements(rules[i].addresses.ipv6)
  {
    FlattenMember(IPv4Lists(rules), a);
    FlattenMember(IPv6Lists(rules), a);
    assert forall i :: 0 <= i < |rules| ==> IPv4Lists(rules)[i] == Elements(rules[i].addresses.ipv4);
    assert forall i :: 0 <= i < |rules| ==> IPv6Lists(rules)[i] == Elements(rules[i].addresses.ipv6);
  }

  /** As many addresses of each family as the list, among them all of the list. */
  ghost predicate SameCountsAndCovered(list: Addresses, rules: seq<Rule>) {
    && |Elements(list.ipv4)| == Count4(rules) && |Elements(list.ipv6)| == Count6(rules)
    && (forall a :: a in Elements(list.ipv4) ==>
          exists i :: 0 <= i < |rules| && a in Elements(rules[i].addresses.ipv4))
    && (forall a :: a in Elements(list.ipv6) ==>
          exists i :: 0 <= i < |rules| && a in Elements(rules[i].addresses.ipv6))
  }

  lemma ListUnchangedIff(list: Option<seq<string>>, installed: seq<string>)
    ensures !ListChanged(list, installed) <==>
      |Elements(list)| == |installed| && forall a :: a in Elements(list) ==> a in installed
  {
    if !ListChanged(list, installed) {
      forall a | a in Elements(list) ensures a in installed {
        var i :| 0 <= i < |Elements(list)| && Elements(list)[i] == a;
      }
    }
  }

  lemma SameElements(p: seq<int>, q: ServicePorts)
    ensures (set x | x in p) == (set x: int | x in q) <==> forall x: int :: x in p <==> x in q
  {
    var a, b: set<int> := set x | x in p, set x: int | x in q;
    assert forall x: int :: x in a <==> x in p;
    assert forall x: int :: x in b <==> x in q;
    if forall x: int :: x in p <==> x in q {
      assert a == b;
    }
  }

  lemma IpsUnchangedIff(list: Addresses, rules: seq<Rule>)
    ensures !IpsChanged(Some(list), rules) <==> SameCountsAndCovered(list, rules)
  {
    Counts(rules);
    ListUnchangedIff(list.ipv4, RuleIPv4s(rules));
    ListUnchangedIff(list.ipv6, RuleIPv6s(rules));
    forall a: string
      ensures a in RuleIPv4s(rules) <==> exists i :: 0 <= i < |rules| && a in Elements(rules[i].addresses.ipv4)
      ensures a in RuleIPv6s(rules) <==> exists i :: 0 <= i < |rules| && a in Elements(rules[i].addresses.ipv6)
    {
      RuleIPsMember(rules, a);
    }
  }

  /**
   * Installed rules are called unchanged exactly if the policy is the opposite of the list's action, the first rule's
   * ports are readable and the same set as the service's, and the counts and the addresses of the list fit.
   */
  lemma UnchangedIff(was: Rules, acl: Acl, ports: ServicePorts)
    requires ExactlyOneList(acl)
    ensures !RuleChanged(was, acl, ports) <==>
      && was.inboundPolicy == (if acl.allowList.Some? then Drop else Accept)
      && SameCountsAndCovered(AclList(acl), was.inbound)
      && was.inbound != [] && PortsOf(was.inbound[0].ports).Some?
      && forall q: int :: q in PortsOf(was.inbound[0].ports).value <==> q in ports
  {
    IpsUnchangedIff(AclList(acl), was.inbound);
    if was.inbound != [] && PortsOf(was.inbound[0].ports).Some? {
      SameElements(PortsOf(was.inbound[0].ports).value, ports);
      if was.inbound[0].ports == "" {
        EmptyNotAccepted();
      }
    }
  }

  // ---------------------------------------------------------------------------
  // Compiled rules under the test
  // ---------------------------------------------------------------------------

  lemma {:induction false} FlattenEmpty(x: seq<seq<string>>)
    requires forall i :: 0 <= i < |x| ==> x[i] == []
    ensures Flatten(x) == []
  {
    if x != [] {
      FlattenEmpty(x[1..]);
    }
  }

  lemma {:induction false} ChunkRulesIPs(action: Policy, ports: string, family: Family, list: Option<seq<string>>)
    ensures var rules := ChunkRules(action, ports, family, list, Chunks(Elements(list)));
            && RuleIPv4s(rules) == (if family == IPv4 then Elements(list) else [])
            && RuleIPv6s(rules) == (if family == IPv6 then Elements(list) else [])
  {
    var chunks := Chunks(Elements(list));
    var rules := ChunkRules(action, ports, family, list, chunks);
    ChunksPartition(Elements(list));
    if family == IPv6 || list.None? {
      FlattenEmpty(IPv4Lists(rules));
    } else {
      assert IPv4Lists(rules) == chunks;
    }
    if family == IPv4 || list.None? {
      FlattenEmpty(IPv6Lists(rules));
    } else {
      assert IPv6Lists(rules) == chunks;
    }
  }

  /** The compiler installs exactly the listed addresses, in order. */
  lemma {:induction false} CompiledIPs(action: Policy, ports: string, ips: Addresses)
    ensures RuleIPv4s(CompiledRules(action, ports, ips)) == Elements(ips.ipv4)
    ensures RuleIPv6s(CompiledRules(action, ports, ips)) == Elements(ips.ipv6)
  {
    if |Elements(ips.ipv4)| + |Elements(ips.ipv6)| > MAX_IPS {
      var r4 := ChunkRules(action, ports, IPv4, ips.ipv4, Chunks(Elements(ips.ipv4)));
      var r6 := ChunkRules(action, ports, IPv6, ips.ipv6, Chunks(Elements(ips.ipv6)));
      ChunkRulesIPs(action, ports, IPv4, ips.ipv4);
      ChunkRulesIPs(action, ports, IPv6, ips.ipv6);
      RuleIPsConcat(r4, r6);
    } else {
      RuleIPsOne(Rule(action, ports, ips));
    }
  }

  /** Once compiled rules are installed verbatim, the next test finds no change exactly when the ports are printable. */
  lemma {:induction false} ReconcileIsFixpoint(acl: Acl, ports: ServicePorts)
    requires Compile(acl, ports).Ok?
    ensures RuleChanged(Compile(acl, ports).value, acl, ports) <==> !Printable(ports)
  {
    CompiledIPsUnchanged(acl, ports);
    CompiledPortsChanged(acl, ports);
    FirstRulePorts(acl, ports);
  }

  lemma {:induction false} CompiledIPsUnchanged(acl: Acl, ports: ServicePorts)
    requires Compile(acl, ports).Ok?
    ensures !IpsChanged(Some(AclList(acl)), Compile(acl, ports).value.inbound)
  {
    CompiledIPs(AclAction(acl), PrintPorts(ports), AclList(acl));
  }

  lemma {:induction false} CompiledPortsChanged(acl: Acl, ports: ServicePorts)
    requires Compile(acl, ports).Ok?
    ensures PortsChanged(Compile(acl, ports).value.inbound, ports) <==> !Printable(ports)
  {
    FirstRulePorts(acl, ports);
    PortsRoundTrip(ports);
    if Printable(ports) {
      PrintedNotEmpty(ports);
      var read: seq<int> := ports;
      assert forall p: int :: p in read <==> p in ports;
    }
  }

  lemma {:induction false} FirstRulePorts(acl: Acl, ports: ServicePorts)
    requires Compile(acl, ports).Ok?
    ensures var rules := Compile(acl, ports).value.inbound; rules != [] && rules[0].ports == PrintPorts(ports)
  {
  }

  lemma {:induction false} PrintedNotEmpty(ports: ServicePorts)
    requires Printable(ports)
    ensures PrintPorts(ports) != ""
  {
  }
}
