/**
 * When "unchanged" may be trusted.  The change test of cloud/linode/services/firewalls.go is approximate; these lemmas
 * give, for every installed rule set and every access list, the exact condition under which rules it calls unchanged
 * decide every packet as the list says.
 */
module FirewallSoundness {
  import opened Wrappers
  import opened Ports
  import opened Firewall
  import opened FirewallChange

  // ---------------------------------------------------------------------------
  // What the test establishes about addresses
  // ---------------------------------------------------------------------------

  predicate NoDuplicates(s: seq<string>) {
    forall i, j :: 0 <= i < j < |s| ==> s[i] != s[j]
  }

  predicate DuplicateFree(acl: Acl)
    requires ExactlyOneList(acl)
  {
    NoDuplicates(Elements(AclList(acl).ipv4)) && NoDuplicates(Elements(AclList(acl).ipv6))
  }

  function Members(s: seq<string>): set<string> {
    set x | x in s
  }

  lemma {:induction false} MembersSize(s: seq<string>)
    ensures |Members(s)| <= |s|
    ensures NoDuplicates(s) <==> |Members(s)| == |s|
  {
    if s != [] {
      MembersSize(s[1..]);
      assert Members(s) == {s[0]} + Members(s[1..]);
      if NoDuplicates(s) {
        assert s[0] !in Members(s[1..]);
      } else if s[0] !in s[1..] {
        var i, j :| 0 <= i < j < |s| && s[i] == s[j];
        assert s[1..][j - 1] == s[j];
        assert i > 0 && s[1..][i - 1] == s[i];
      }
    }
  }

  lemma SubsetOfSameSize(a: set<string>, b: set<string>)
    requires a <= b && |a| >= |b|
    ensures a == b
  {
    assert b == a + (b - a);
  }

  /** Pigeonhole: equal length and one-way membership make equal sets when the list has no duplicates. */
  lemma {:induction false} UnchangedListSameMembers(list: Option<seq<string>>, installed: seq<string>)
    requires !ListChanged(list, installed) && NoDuplicates(Elements(list))
    ensures Members(Elements(list)) == Members(installed) && NoDuplicates(installed)
  {
    MembersSize(Elements(list));
    MembersSize(installed);
    assert Members(Elements(list)) <= Members(installed);
    SubsetOfSameSize(Members(Elements(list)), Members(installed));
  }

  /** Rules called unchanged list the addresses of the list and no others. */
  lemma {:induction false} UnchangedLists(was: Rules, acl: Acl, ports: ServicePorts, a: string)
    requires ExactlyOneList(acl) && DuplicateFree(acl) && !RuleChanged(was, acl, ports)
    ensures Lists(was.inbound, a) <==> a in All(AclList(acl))
  {
    var list := AclList(acl);
    UnchangedListSameMembers(list.ipv4, RuleIPv4s(was.inbound));
    UnchangedListSameMembers(list.ipv6, RuleIPv6s(was.inbound));
    RuleIPsMember(was.inbound, a);
    assert a in RuleIPv4s(was.inbound) <==> a in Members(Elements(list.ipv4));
    assert a in RuleIPv6s(was.inbound) <==> a in Members(Elements(list.ipv6));
  }

  // ---------------------------------------------------------------------------
  // What the access list says
  // ---------------------------------------------------------------------------

  /** The verdict an access list stands for. */
  ghost function AclVerdict(covers: Coverage, acl: Acl, ports: ServicePorts, p: Packet): Policy
    requires ExactlyOneList(acl)
  {
    if p.port in ports && Covered(covers, All(AclList(acl)), p.source) then AclAction(acl) else Opposite(AclAction(acl))
  }

  ghost predicate Enforces(covers: Coverage, rules: Rules, acl: Acl, ports: ServicePorts, p: Packet)
    requires ExactlyOneList(acl)
  {
    Verdict(covers, rules.inbound, rules.inboundPolicy, p) == AclVerdict(covers, acl, ports, p)
  }

  lemma {:induction false} CompiledEnforces(covers: Coverage, acl: Acl, ports: ServicePorts, p: Packet)
    requires Compile(acl, ports).Ok? && Printable(ports)
    ensures Enforces(covers, Compile(acl, ports).value, acl, ports, p)
  {
    CompiledMeansAcl(covers, acl, ports, p);
  }

  function PortSet(text: string): set<int> {
    if PortsOf(text).Some? then set p | p in PortsOf(text).value else {}
  }

  function ServiceSet(ports: ServicePorts): set<int> {
    set p: int | p in ports
  }

  /** Every rule that lists an address has the action of the list and the ports of the service. */
  predicate EachRuleFits(rules: seq<Rule>, action: Policy, ports: ServicePorts) {
    forall i :: 0 <= i < |rules| && All(rules[i].addresses) != [] ==>
      rules[i].action == action && PortSet(rules[i].ports) == ServiceSet(ports)
  }

  // ---------------------------------------------------------------------------
  // Fitting rules are enough
  // ---------------------------------------------------------------------------

  ghost predicate SomeRuleCovers(covers: Coverage, rules: seq<Rule>, source: string) {
    exists i :: 0 <= i < |rules| && Covered(covers, All(rules[i].addresses), source)
  }

  lemma FirstOrRestCovers(covers: Coverage, rules: seq<Rule>, source: string)
    requires rules != []
    ensures SomeRuleCovers(covers, rules, source) <==>
      Covered(covers, All(rules[0].addresses), source) || SomeRuleCovers(covers, rules[1..], source)
  {
    var rest := rules[1..];
    if i :| 0 <= i < |rest| && Covered(covers, All(rest[i].addresses), source) {
      assert rules[i + 1] == rest[i];
    }
  }

  lemma {:induction false} FittingVerdict(covers: Coverage, rules: seq<Rule>, action: Policy, ports: ServicePorts,
                                          policy: Policy, p: Packet)
    requires EachRuleFits(rules, action, ports)
    ensures Verdict(covers, rules, policy, p) ==
              if p.port in ServiceSet(ports) && SomeRuleCovers(covers, rules, p.source) then action else policy
  {
    if rules != [] {
      FittingVerdict(covers, rules[1..], action, ports, policy, p);
      FirstOrRestCovers(covers, rules, p.source);
      assert Matches(covers, rules[0], p) <==>
        p.port in PortSet(rules[0].ports) && Covered(covers, All(rules[0].addresses), p.source);
    }
  }

  lemma {:induction false} UnchangedCovers(covers: Coverage, was: Rules, acl: Acl, ports: ServicePorts, source: string)
    requires ExactlyOneList(acl) && DuplicateFree(acl) && !RuleChanged(was, acl, ports)
    ensures SomeRuleCovers(covers, was.inbound, source) <==> Covered(covers, All(AclList(acl)), source)
  {
    if i :| 0 <= i < |was.inbound| && Covered(covers, All(was.inbound[i].addresses), source) {
      var a :| a in All(was.inbound[i].addresses) && covers(a, source);
      UnchangedLists(was, acl, ports, a);
    }
    if Covered(covers, All(AclList(acl)), source) {
      var a :| a in All(AclList(acl)) && covers(a, source);
      UnchangedLists(was, acl, ports, a);
      var i :| 0 <= i < |was.inbound| && a in All(was.inbound[i].addresses);
      assert Covered(covers, All(was.inbound[i].addresses), source);
    }
  }

  lemma UnchangedPolicy(was: Rules, acl: Acl, ports: ServicePorts)
    requires ExactlyOneList(acl) && !RuleChanged(was, acl, ports)
    ensures was.inboundPolicy == Opposite(AclAction(acl))
    ensures was.inbound != [] && PortSet(was.inbound[0].ports) == ServiceSet(ports)
  {
  }

  /** Fitting rules that the test calls unchanged decide every packet as the duplicate-free list says. */
  lemma {:induction false} FittingIsSound(covers: Coverage, was: Rules, acl: Acl, ports: ServicePorts, p: Packet)
    requires ExactlyOneList(acl) && DuplicateFree(acl) && !RuleChanged(was, acl, ports)
    requires EachRuleFits(was.inbound, AclAction(acl), ports)
    ensures Enforces(covers, was, acl, ports, p)
  {
    UnchangedPolicy(was, acl, ports);
    FittingVerdict(covers, was.inbound, AclAction(acl), ports, was.inboundPolicy, p);
    UnchangedCovers(covers, was, acl, ports, p.source);
  }

  /**
   * Rules that share action and ports, as those of the compiler do, are fitting as soon as the test calls them
   * unchanged: it has compared the ports of the first one.
   */
  lemma {:induction false} UnchangedIsSound(covers: Coverage, was: Rules, action: Policy, text: string,
                                            acl: Acl, ports: ServicePorts, p: Packet)
    requires Uniform(was.inbound, action, text) && was.inboundPolicy == Opposite(action)
    requires ExactlyOneList(acl) && DuplicateFree(acl) && !RuleChanged(was, acl, ports)
    ensures Enforces(covers, was, acl, ports, p)
    ensures Compile(acl, ports).Ok? && Printable(ports) ==>
      var now := Compile(acl, ports).value;
      Verdict(covers, was.inbound, was.inboundPolicy, p) == Verdict(covers, now.inbound, now.inboundPolicy, p)
  {
    UnchangedPolicy(was, acl, ports);
    FittingIsSound(covers, was, acl, ports, p);
    if Compile(acl, ports).Ok? && Printable(ports) {
      CompiledEnforces(covers, acl, ports, p);
    }
  }

  /** Against rules compiled from any earlier list and service, compiling again succeeds and changes no verdict. */
  lemma {:induction false} UnchangedCompiledIsSound(covers: Coverage, acl0: Acl, ports0: ServicePorts,
                                                    acl: Acl, ports: ServicePorts, p: Packet)
    requires Compile(acl0, ports0).Ok? && ExactlyOneList(acl) && DuplicateFree(acl)
    requires !RuleChanged(Compile(acl0, ports0).value, acl, ports)
    ensures Compile(acl, ports).Ok? && Printable(ports)
    ensures var was, now := Compile(acl0, ports0).value, Compile(acl, ports).value;
            Verdict(covers, was.inbound, was.inboundPolicy, p) == Verdict(covers, now.inbound, now.inboundPolicy, p)
  {
    UnchangedPorts(acl0, ports0, acl, ports);
    CompiledIPs(AclAction(acl0), PrintPorts(ports0), AclList(acl0));
    CompileLimits(acl0, ports0);
    CompileLimits(acl, ports);
    CompiledRulesCover(AclAction(acl0), PrintPorts(ports0), AclList(acl0), "");
    UnchangedIsSound(covers, Compile(acl0, ports0).value, AclAction(acl0), PrintPorts(ports0), acl, ports, p);
  }

  /** An "unchanged" answer means the same ports, as sets, and the same kind of list. */
  lemma {:induction false} UnchangedPorts(acl0: Acl, ports0: ServicePorts, acl: Acl, ports: ServicePorts)
    requires Compile(acl0, ports0).Ok? && ExactlyOneList(acl)
    requires !RuleChanged(Compile(acl0, ports0).value, acl, ports)
    ensures Printable(ports0) && Printable(ports)
    ensures forall p: int :: p in ports0 <==> p in ports
    ensures AclAction(acl0) == AclAction(acl)
  {
    FirstRulePorts(acl0, ports0);
    PortsRoundTrip(ports0);
    var s0, s1 := set p: int | p in ports0, set p: int | p in ports;
    assert s0 == s1;
    assert forall p: int :: p in ports0 <==> p in s0;
    assert forall p: int :: p in ports <==> p in s1;
    assert (ports0[0] as int) in ports;
    forall i | 0 <= i < |ports|
      ensures ports[i] >= 0
    {
      assert (ports[i] as int) in ports0;
    }
  }

  // ---------------------------------------------------------------------------
  // Fitting rules are needed
  // ---------------------------------------------------------------------------

  /** No address is listed twice, not even once in each family. */
  predicate AllDistinct(acl: Acl)
    requires ExactlyOneList(acl)
  {
    NoDuplicates(All(AclList(acl)))
  }

  lemma DistinctIsDuplicateFree(acl: Acl, a: string)
    requires ExactlyOneList(acl) && AllDistinct(acl)
    ensures DuplicateFree(acl)
    ensures !(a in Elements(AclList(acl).ipv4) && a in Elements(AclList(acl).ipv6))
  {
    var list := AclList(acl);
    var n := |Elements(list.ipv4)|;
    assert forall i :: 0 <= i < n ==> All(list)[i] == Elements(list.ipv4)[i];
    assert forall i :: 0 <= i < |Elements(list.ipv6)| ==> All(list)[n + i] == Elements(list.ipv6)[i];
  }

  lemma {:induction false} ListedTwice(chunks: seq<seq<string>>, i: nat, j: nat, a: string)
    requires i < j < |chunks| && a in chunks[i] && a in chunks[j]
    ensures !NoDuplicates(Flatten(chunks))
  {
    var rest := Flatten(chunks[1..]);
    var n := |chunks[0]|;
    assert forall k :: 0 <= k < |rest| ==> Flatten(chunks)[n + k] == rest[k];
    if i > 0 {
      ListedTwice(chunks[1..], i - 1, j - 1, a);
      var k, m :| 0 <= k < m < |rest| && rest[k] == rest[m];
      assert Flatten(chunks)[n + k] == Flatten(chunks)[n + m];
    } else {
      assert chunks[1..][j - 1] == chunks[j];
      FlattenMember(chunks[1..], a);
      var k :| 0 <= k < n && chunks[0][k] == a;
      var m :| 0 <= m < |rest| && rest[m] == a;
      assert Flatten(chunks)[k] == Flatten(chunks)[n + m];
    }
  }

  /** Rules called unchanged list each address in one rule only. */
  lemma {:induction false} ListedOnce(was: Rules, acl: Acl, ports: ServicePorts, i: nat, j: nat, a: string)
    requires ExactlyOneList(acl) && AllDistinct(acl) && !RuleChanged(was, acl, ports)
    requires i < |was.inbound| && j < |was.inbound|
    requires a in All(was.inbound[i].addresses) && a in All(was.inbound[j].addresses)
    ensures i == j
  {
    var rules, list := was.inbound, AclList(acl);
    DistinctIsDuplicateFree(acl, a);
    UnchangedListSameMembers(list.ipv4, RuleIPv4s(rules));
    UnchangedListSameMembers(list.ipv6, RuleIPv6s(rules));
    RuleIPsMember(rules, a);
    assert a in RuleIPv4s(rules) <==> a in Members(Elements(list.ipv4));
    assert a in RuleIPv6s(rules) <==> a in Members(Elements(list.ipv6));
    if i != j {
      var lists := if a in Elements(rules[i].addresses.ipv4) then IPv4Lists(rules) else IPv6Lists(rules);
      ListedTwice(lists, if i < j then i else j, if i < j then j else i, a);
    }
  }

  lemma {:induction false} SoleRuleVerdict(covers: Coverage, rules: seq<Rule>, policy: Policy, p: Packet, k: nat)
    requires k < |rules| && forall i :: 0 <= i < |rules| && i != k ==> !Matches(covers, rules[i], p)
    ensures Verdict(covers, rules, policy, p) == if Matches(covers, rules[k], p) then rules[k].action else policy
  {
    assert forall i :: 0 <= i < |rules[1..]| ==> rules[1..][i] == rules[i + 1];
    if k > 0 {
      SoleRuleVerdict(covers, rules[1..], policy, p, k - 1);
    } else if !Matches(covers, rules[0], p) {
      NoRuleVerdict(covers, rules[1..], policy, p);
    }
  }

  lemma {:induction false} NoRuleVerdict(covers: Coverage, rules: seq<Rule>, policy: Policy, p: Packet)
    requires forall i :: 0 <= i < |rules| ==> !Matches(covers, rules[i], p)
    ensures Verdict(covers, rules, policy, p) == policy
  {
    if rules != [] {
      assert forall i :: 0 <= i < |rules[1..]| ==> rules[1..][i] == rules[i + 1];
      NoRuleVerdict(covers, rules[1..], policy, p);
    }
  }

  /** Sources are covered by their own address alone. */
  ghost function Exactly(): Coverage {
    (a: string, source: string) => a == source
  }

  /** Two rule sets decide a packet differently. */
  ghost predicate Differs(was: Rules, now: Rules, p: Packet) {
    Verdict(Exactly(), was.inbound, was.inboundPolicy, p) != Verdict(Exactly(), now.inbound, now.inboundPolicy, p)
  }

  /** For a source listed in rule k alone, rule k decides. */
  lemma {:induction false} ListedVerdict(was: Rules, acl: Acl, ports: ServicePorts, k: nat, a: string, port: int)
    requires ExactlyOneList(acl) && AllDistinct(acl) && !RuleChanged(was, acl, ports)
    requires k < |was.inbound| && a in All(was.inbound[k].addresses)
    ensures Verdict(Exactly(), was.inbound, was.inboundPolicy, Packet(a, port)) ==
              if port in PortSet(was.inbound[k].ports) then was.inbound[k].action else was.inboundPolicy
    ensures AclVerdict(Exactly(), acl, ports, Packet(a, port)) ==
              if port in ServiceSet(ports) then AclAction(acl) else was.inboundPolicy
  {
    var rules, p := was.inbound, Packet(a, port);
    forall i | 0 <= i < |rules| && i != k
      ensures !Matches(Exactly(), rules[i], p)
    {
      if Covered(Exactly(), All(rules[i].addresses), a) {
        ListedOnce(was, acl, ports, i, k, a);
      }
    }
    SoleRuleVerdict(Exactly(), rules, was.inboundPolicy, p, k);
    assert Covered(Exactly(), All(rules[k].addresses), a) by {
      assert a in All(rules[k].addresses) && Exactly()(a, a);
    }
    UnchangedPolicy(was, acl, ports);
    DistinctIsDuplicateFree(acl, a);
    UnchangedLists(was, acl, ports, a);
    assert Covered(Exactly(), All(AclList(acl)), a) by {
      assert a in All(AclList(acl)) && Exactly()(a, a);
    }
  }

  lemma {:induction false} ServiceHasPorts(was: Rules, acl: Acl, ports: ServicePorts)
    requires ExactlyOneList(acl) && !RuleChanged(was, acl, ports)
    ensures ports != []
  {
    UnchangedPolicy(was, acl, ports);
    AcceptedNotEmpty(was.inbound[0].ports);
    var read := PortsOf(was.inbound[0].ports).value;
    assert read[0] in PortSet(was.inbound[0].ports);
    assert read[0] in ServiceSet(ports);
  }

  lemma Difference<T(!new)>(a: set<T>, b: set<T>) returns (x: T)
    requires a != b
    ensures (x in a) != (x in b)
  {
    x :| (x in a) != (x in b);
  }

  /** A rule that lists an address and does not fit gives some packet a verdict the list does not. */
  lemma {:induction false} MisfitIsUnsound(was: Rules, acl: Acl, ports: ServicePorts, k: nat) returns (p: Packet)
    requires ExactlyOneList(acl) && AllDistinct(acl) && !RuleChanged(was, acl, ports)
    requires k < |was.inbound| && All(was.inbound[k].addresses) != []
    requires was.inbound[k].action != AclAction(acl) || PortSet(was.inbound[k].ports) != ServiceSet(ports)
    ensures !Enforces(Exactly(), was, acl, ports, p)
  {
    var rule := was.inbound[k];
    var a := All(rule.addresses)[0];
    var have, want := PortSet(rule.ports), ServiceSet(ports);
    UnchangedPolicy(was, acl, ports);
    ServiceHasPorts(was, acl, ports);
    assert (ports[0] as int) in want;
    var port: int := ports[0];
    if rule.action == AclAction(acl) {
      port := Difference(have, want);
    }
    p := Packet(a, port);
    ListedVerdict(was, acl, ports, k, a, port);
  }

  /**
   * For every installed rule set that the test calls unchanged and every list without repetition: the rules decide
   * every packet as the list says, however addresses cover sources, if and only if each rule with an address fits.
   */
  lemma {:induction false} UnchangedSoundIff(was: Rules, acl: Acl, ports: ServicePorts)
    requires ExactlyOneList(acl) && AllDistinct(acl) && !RuleChanged(was, acl, ports)
    ensures EachRuleFits(was.inbound, AclAction(acl), ports) <==>
              forall covers: Coverage, p :: Enforces(covers, was, acl, ports, p)
  {
    DistinctIsDuplicateFree(acl, "");
    if EachRuleFits(was.inbound, AclAction(acl), ports) {
      forall covers: Coverage, p
        ensures Enforces(covers, was, acl, ports, p)
      {
        FittingIsSound(covers, was, acl, ports, p);
      }
    } else {
      var k :| 0 <= k < |was.inbound| && All(was.inbound[k].addresses) != [] &&
        (was.inbound[k].action != AclAction(acl) || PortSet(was.inbound[k].ports) != ServiceSet(ports));
      var p := MisfitIsUnsound(was, acl, ports, k);
    }
  }

  // ---------------------------------------------------------------------------
  // Rules edited by hand
  // ---------------------------------------------------------------------------

  /** The ports of the rules after the first do not enter the test, so rules edited by hand can escape it. */
  lemma {:induction false} OnlyFirstRulePortsRead(was: Rules, acl: Acl, ports: ServicePorts, k: nat, text: string)
    requires 0 < k < |was.inbound|
    ensures var edited := was.(inbound := was.inbound[k := was.inbound[k].(ports := text)]);
            RuleChanged(edited, acl, ports) <==> RuleChanged(was, acl, ports)
  {
    var edited := was.inbound[k := was.inbound[k].(ports := text)];
    assert IPv4Lists(edited) == IPv4Lists(was.inbound);
    assert IPv6Lists(edited) == IPv6Lists(was.inbound);
  }

  /**
   * Whenever the compiled rules of a list are more than one, changing the ports of a later rule with an address goes
   * unnoticed, and some packet is then decided differently from what compiling again would decide.
   */
  lemma {:induction false} EditedRuleEscapes(acl: Acl, ports: ServicePorts, k: nat, text: string) returns (p: Packet)
    requires Compile(acl, ports).Ok? && Printable(ports) && AllDistinct(acl) && PortSet(text) != ServiceSet(ports)
    requires 0 < k < |Compile(acl, ports).value.inbound| && All(Compile(acl, ports).value.inbound[k].addresses) != []
    ensures var now := Compile(acl, ports).value;
            var was := now.(inbound := now.inbound[k := now.inbound[k].(ports := text)]);
            && !RuleChanged(was, acl, ports)
            && Differs(was, now, p)
  {
    var now := Compile(acl, ports).value;
    var was := now.(inbound := now.inbound[k := now.inbound[k].(ports := text)]);
    ReconcileIsFixpoint(acl, ports);
    OnlyFirstRulePortsRead(now, acl, ports, k, text);
    p := MisfitIsUnsound(was, acl, ports, k);
    CompiledEnforces(Exactly(), acl, ports, p);
  }

  // ---------------------------------------------------------------------------
  // Lists that repeat an address
  // ---------------------------------------------------------------------------

  /** Addresses to choose from: 10.0.0.1/32 and on, and 2001:db8::1/128 and on. */
  function SomeIPv4(n: nat): string {
    Join(["10", "0", Itoa(n / 256), Itoa(n % 256) + "/32"], '.')
  }

  function SomeIPv6(n: nat): string {
    "2001:db8::" + Itoa(n) + "/128"
  }

  lemma DigitsHaveNoDot(n: nat)
    ensures '.' !in Itoa(n)
  {
    DigitsProper(n);
  }

  lemma SomeIPv4Injective(m: nat, n: nat)
    requires m != n
    ensures SomeIPv4(m) != SomeIPv4(n)
  {
    var x := ["10", "0", Itoa(m / 256), Itoa(m % 256) + "/32"];
    var y := ["10", "0", Itoa(n / 256), Itoa(n % 256) + "/32"];
    DigitsHaveNoDot(m / 256);
    DigitsHaveNoDot(m % 256);
    DigitsHaveNoDot(n / 256);
    DigitsHaveNoDot(n % 256);
    SplitJoin(x, '.');
    SplitJoin(y, '.');
    if m / 256 != n / 256 {
      ItoaInjective(m / 256, n / 256);
      assert x[2] != y[2];
    } else {
      ItoaInjective(m % 256, n % 256);
      SuffixKept(Itoa(m % 256), Itoa(n % 256), "/32");
      assert x[3] != y[3];
    }
  }

  lemma SomeIPv6Injective(m: nat, n: nat)
    requires m != n
    ensures SomeIPv6(m) != SomeIPv6(n)
  {
    ItoaInjective(m, n);
    SuffixKept(Itoa(m), Itoa(n), "/128");
    var prefix := "2001:db8::";
    assert SomeIPv6(m)[|prefix|..] == Itoa(m) + "/128" && SomeIPv6(n)[|prefix|..] == Itoa(n) + "/128";
  }

  lemma SuffixKept(x: string, y: string, suffix: string)
    requires x != y
    ensures x + suffix != y + suffix
  {
    if |x| == |y| {
      var i :| 0 <= i < |x| && x[i] != y[i];
      assert (x + suffix)[i] == x[i] && (y + suffix)[i] == y[i];
    }
  }

  /** Different numbers give different addresses. */
  ghost predicate Injective(f: nat -> string) {
    forall i, j :: 0 <= i < j ==> f(i) != f(j)
  }

  function Choices(f: nat -> string, n: nat): set<string> {
    if n == 0 then {} else Choices(f, n - 1) + {f(n)}
  }

  lemma {:induction false} NewChoice(f: nat -> string, n: nat, m: nat)
    requires Injective(f) && m > n
    ensures f(m) !in Choices(f, n)
  {
    if n > 0 {
      NewChoice(f, n - 1, m);
    }
  }

  lemma {:induction false} ChoicesSize(f: nat -> string, n: nat)
    requires Injective(f)
    ensures |Choices(f, n)| == n
  {
    if n > 0 {
      ChoicesSize(f, n - 1);
      NewChoice(f, n - 1, n);
    }
  }

  lemma {:induction false} FirstUnlisted(s: seq<string>, f: nat -> string, n: nat) returns (k: nat)
    ensures k <= n && (k > 0 ==> f(k) !in s)
    ensures k == 0 ==> Choices(f, n) <= Members(s)
  {
    if n == 0 {
      return 0;
    }
    k := FirstUnlisted(s, f, n - 1);
    if k == 0 && f(n) !in s {
      k := n;
    }
  }

  /** Of one more address than the list has, one is not in the list. */
  lemma {:induction false} Unlisted(s: seq<string>, f: nat -> string) returns (k: nat)
    requires Injective(f)
    ensures 1 <= k <= |s| + 1 && f(k) !in s
  {
    k := FirstUnlisted(s, f, |s| + 1);
    ChoicesSize(f, |s| + 1);
    MembersSize(s);
    if k == 0 {
      SubsetSize(Choices(f, |s| + 1), Members(s));
    }
  }

  lemma {:induction false} UnlistedAddress(s: seq<string>, ipv6: bool) returns (z: string)
    ensures z !in s && exists k :: 1 <= k <= |s| + 1 && z == if ipv6 then SomeIPv6(k) else SomeIPv4(k)
  {
    var f: nat -> string := if ipv6 then SomeIPv6 else SomeIPv4;
    forall i: nat, j: nat | i < j
      ensures f(i) != f(j)
    {
      SomeIPv4Injective(i, j);
      SomeIPv6Injective(i, j);
    }
    var k := Unlisted(s, f);
    z := f(k);
  }

  lemma SubsetSize(a: set<string>, b: set<string>)
    requires a <= b
    ensures |a| <= |b|
  {
    assert b == a + (b - a);
  }

  function WithList(acl: Acl, list: Addresses): Acl {
    if acl.denyList.Some? then Acl(None, Some(list)) else Acl(Some(list), None)
  }

  /** The list with one occurrence of a repeated element replaced by a new one. */
  lemma {:induction false} ReplaceRepeated(s: seq<string>, z: string) returns (t: seq<string>)
    requires !NoDuplicates(s)
    ensures |t| == |s| && z in t && !ListChanged(Some(s), t)
  {
    var i, j :| 0 <= i < j < |s| && s[i] == s[j];
    t := s[j := z];
    assert t[j] == z;
    forall k | 0 <= k < |s|
      ensures s[k] in t
    {
      assert t[if k == j then i else k] == s[k];
    }
  }

  /**
   * For every list that repeats an address there are earlier rules, compiled from a list that names another source,
   * on which the test says "unchanged" although the verdict differs.
   */
  lemma {:induction false} DuplicatesAreUnsound(acl: Acl, ports: ServicePorts) returns (acl0: Acl, p: Packet)
    requires Compile(acl, ports).Ok? && Printable(ports) && !DuplicateFree(acl)
    ensures Compile(acl0, ports).Ok? && !RuleChanged(Compile(acl0, ports).value, acl, ports)
    ensures var was, now := Compile(acl0, ports).value, Compile(acl, ports).value;
            Differs(was, now, p)
  {
    var list := AclList(acl);
    var inIPv6 := NoDuplicates(Elements(list.ipv4));
    var z := UnlistedAddress(All(list), inIPv6);
    var list0 := list;
    if !inIPv6 {
      var t := ReplaceRepeated(Elements(list.ipv4), z);
      list0 := Addresses(Some(t), list.ipv6);
    } else {
      var t := ReplaceRepeated(Elements(list.ipv6), z);
      list0 := Addresses(list.ipv4, Some(t));
    }
    acl0 := WithList(acl, list0);
    p := Packet(z, ports[0]);
    SameSizeUnchanged(acl, acl0, ports);
    CompiledEnforces(Exactly(), acl0, ports, p);
    CompiledEnforces(Exactly(), acl, ports, p);
    assert z in All(list0) && Exactly()(z, p.source);
  }

  lemma {:induction false} SameSizeUnchanged(acl: Acl, acl0: Acl, ports: ServicePorts)
    requires Compile(acl, ports).Ok? && Printable(ports) && ExactlyOneList(acl0) && AclAction(acl0) == AclAction(acl)
    requires |Elements(AclList(acl0).ipv4)| == |Elements(AclList(acl).ipv4)|
    requires |Elements(AclList(acl0).ipv6)| == |Elements(AclList(acl).ipv6)|
    requires !ListChanged(AclList(acl).ipv4, Elements(AclList(acl0).ipv4))
    requires !ListChanged(AclList(acl).ipv6, Elements(AclList(acl0).ipv6))
    ensures Compile(acl0, ports).Ok? && !RuleChanged(Compile(acl0, ports).value, acl, ports)
  {
    CompileLimits(acl, ports);
    CompileLimits(acl0, ports);
    CompiledIPs(AclAction(acl0), PrintPorts(ports), AclList(acl0));
    CompiledPortsChanged(acl0, ports);
    FirstRulePorts(acl0, ports);
  }
}
