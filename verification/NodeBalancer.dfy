/**
 * Bringing the configs and backends of a NodeBalancer in line with a service (updateNodeBalancer and
 * deleteUnusedConfigs in cloud/linode/loadbalancers.go).  `Balancer` is the remote store; every call may
 * fail, and a call that fails has no effect.
 */
module NodeBalancer {
  import opened Wrappers
  import opened Ports

  /** A NodeBalancer node: a backend address under an ID. */
  datatype Backend = Backend(id: int, address: string)

  datatype Config = Config(port: int, backends: seq<Backend>)

  datatype ServicePort = ServicePort(port: int, nodePort: Int32)

  datatype AddressType = InternalIP | OtherAddress

  /** The parts of a Kubernetes node that decide its backend IP; `publicIPv6` is the annotation if it parses as IPv6. */
  datatype Node = Node(privateIP: Option<string>, addresses: seq<(AddressType, string)>, publicIPv6: Option<string>)

  /**
   * Which backend IP a service uses: the node's IPv6 address, or an IPv4 address given the backend subnet (0 for
   * none).
   */
  datatype Backends = IPv6Backends | IPv4Backends(subnet: int)

  // -- backend addresses ------------------------------------------------------------

  function FirstInternal(addresses: seq<(AddressType, string)>): Option<string> {
    if addresses == [] then None
    else if addresses[0].0 == InternalIP then Some(addresses[0].1)
    else FirstInternal(addresses[1..])
  }

  lemma {:induction false} FirstInternalExact(addresses: seq<(AddressType, string)>)
    ensures IsFirstInternal(addresses, FirstInternal(addresses))
  {
    if addresses != [] {
      if addresses[0].0 == InternalIP {
        assert FirstAt(addresses, 0);
      } else {
        var rest := addresses[1..];
        FirstInternalExact(rest);
        if FirstInternal(rest).Some? {
          var i: nat :| FirstAt(rest, i) && FirstInternal(rest).value == rest[i].1;
          assert FirstAt(addresses, i + 1);
        }
      }
    }
  }

  /** The address at this place is the first internal one. */
  predicate FirstAt(addresses: seq<(AddressType, string)>, i: nat) {
    i < |addresses| && addresses[i].0 == InternalIP && forall j :: 0 <= j < i ==> addresses[j].0 != InternalIP
  }

  ghost predicate IsFirstInternal(addresses: seq<(AddressType, string)>, ip: Option<string>) {
    match ip
    case None => forall i :: 0 <= i < |addresses| ==> addresses[i].0 != InternalIP
    case Some(text) => exists i: nat :: FirstAt(addresses, i) && text == addresses[i].1
  }

  /** The host a node is reached at: the annotation if it applies, else the first internal address, or the IPv6 one. */
  ghost predicate IsBackendIP(node: Node, kind: Backends, ip: Option<string>) {
    match kind
    case IPv6Backends => ip == node.publicIPv6
    case IPv4Backends(subnet) =>
      && (subnet == 0 && node.privateIP.Some? ==> ip == node.privateIP)
      && (subnet != 0 || node.privateIP.None? ==> IsFirstInternal(node.addresses, ip))
  }

  /** getNodeBackendIP and getNodePrivateIP */
  function BackendIP(node: Node, kind: Backends): (ip: Option<string>)
    ensures IsBackendIP(node, kind, ip)
  {
    match kind
    case IPv6Backends => node.publicIPv6
    case IPv4Backends(subnet) =>
      FirstInternalExact(node.addresses);
      if subnet == 0 && node.privateIP.Some? then node.privateIP else FirstInternal(node.addresses)
  }

  /** net.JoinHostPort: a host with a colon is bracketed. */
  function JoinHostPort(host: string, port: string): string {
    if ':' in host then "[" + host + "]:" + port else host + ":" + port
  }

  /** The text of host and port, the host in brackets exactly when it has a colon. */
  ghost predicate IsBackendAddress(node: Node, kind: Backends, nodePort: Int32, text: string) {
    exists host :: IsBackendIP(node, kind, Some(host)) &&
      text == (if exists i :: 0 <= i < |host| && host[i] == ':' then "[" + host + "]" else host) + ":" + Itoa(nodePort)
  }

  function Address(node: Node, kind: Backends, nodePort: Int32): (a: Option<string>)
    ensures a.None? <==> BackendIP(node, kind).None?
    ensures a.Some? ==> IsBackendAddress(node, kind, nodePort, a.value)
  {
    var ip := BackendIP(node, kind);
    if ip.Some? then
      assert "[" + ip.value + "]:" + Itoa(nodePort) == "[" + ip.value + "]" + ":" + Itoa(nodePort);
      Some(JoinHostPort(ip.value, Itoa(nodePort)))
    else None
  }

  lemma BracketedDiffers(long: string, short: string, port: string)
    requires ':' in long && ':' !in short
    ensures JoinHostPort(long, port) != JoinHostPort(short, port)
  {
    var i :| 0 <= i < |long| && long[i] == ':';
    assert JoinHostPort(long, port)[i + 1] == ':';
    if |short| == |long| + 2 {
      assert JoinHostPort(short, port)[i + 1] == short[i + 1] != ':';
    }
  }

  /** Different hosts have different backend addresses. */
  lemma JoinHostPortInjective(h1: string, h2: string, port: string)
    requires h1 != h2
    ensures JoinHostPort(h1, port) != JoinHostPort(h2, port)
  {
    if ':' in h1 && ':' !in h2 {
      BracketedDiffers(h1, h2, port);
    } else if ':' in h2 && ':' !in h1 {
      BracketedDiffers(h2, h1, port);
    } else if |h1| == |h2| {
      var k := if ':' in h1 then 1 else 0;
      var i :| 0 <= i < |h1| && h1[i] != h2[i];
      assert JoinHostPort(h1, port)[k + i] == h1[i] && JoinHostPort(h2, port)[k + i] == h2[i];
    }
  }

  // -- what one config should look like ----------------------------------------------

  /** The ID of the last backend with this address. */
  function LastID(backends: seq<Backend>, address: string): Option<int> {
    if backends == [] then None
    else if backends[|backends| - 1].address == address then Some(backends[|backends| - 1].id)
    else LastID(backends[..|backends| - 1], address)
  }

  lemma {:induction false} LastIDExact(backends: seq<Backend>, address: string)
    ensures LastID(backends, address).None? <==> forall i :: 0 <= i < |backends| ==> backends[i].address != address
    ensures LastID(backends, address).Some? ==> Backend(LastID(backends, address).value, address) in backends
    ensures LastID(backends, address).Some? ==>
      exists i: nat :: LastAt(backends, address, i) && LastID(backends, address).value == backends[i].id
  {
    if backends != [] {
      var n := |backends| - 1;
      LastIDExact(backends[..n], address);
      if backends[n].address == address {
        assert LastAt(backends, address, n);
      } else if LastID(backends, address).Some? {
        var i: nat :| LastAt(backends[..n], address, i) && LastID(backends[..n], address).value == backends[i].id;
        assert LastAt(backends, address, i);
      }
    }
  }

  /** The backend at this place is the last one with the address. */
  predicate LastAt(backends: seq<Backend>, address: string, i: nat) {
    && i < |backends| && backends[i].address == address
    && forall j :: i < j < |backends| ==> backends[j].address != address
  }

  /** A new backend shares its ID with no other new one. */
  ghost predicate NewAndAlone(backends: seq<Backend>, was: seq<Backend>, i: nat)
    requires i < |backends|
  {
    forall j :: 0 <= j < |backends| && backends[j].id == backends[i].id ==>
      j == i || LastID(was, backends[j].address).Some?
  }

  /** One backend per node, in order; an ID is kept exactly where the address was there before, and is new otherwise. */
  ghost predicate Serves(backends: seq<Backend>, was: seq<Backend>, nodes: seq<Node>, kind: Backends,
                         nodePort: Int32, next: int)
  {
    && |backends| == |nodes|
    && forall i :: 0 <= i < |nodes| ==>
         && Address(nodes[i], kind, nodePort) == Some(backends[i].address)
         && match LastID(was, backends[i].address)
            case Some(id) => backends[i].id == id
            case None => backends[i].id >= next && NewAndAlone(backends, was, i)
  }

  datatype NodeOptions = NodeOptions(id: Option<int>, address: string)

  /** The IDs in the options are those of existing backends. */
  predicate KnownIDs(options: seq<NodeOptions>, backends: seq<Backend>) {
    forall i :: 0 <= i < |options| && options[i].id.Some? ==>
      exists j :: 0 <= j < |backends| && backends[j].id == options[i].id.value
  }

  /** The backend a rebuild makes of an option; `id` is the new ID to give if there is none. */
  function Rebuilt(option: NodeOptions, id: int): Backend {
    Backend(if option.id.Some? then option.id.value else id, option.address)
  }

  /** getNodePrivateIP */
  method PrivateIP(node: Node, subnet: int) returns (ip: Option<string>)
    ensures ip == BackendIP(node, IPv4Backends(subnet)) && IsBackendIP(node, IPv4Backends(subnet), ip)
  {
    if subnet == 0 {
      if node.privateIP.Some? {
        return node.privateIP;
      }
    }
    for i := 0 to |node.addresses|
      invariant FirstInternal(node.addresses) == FirstInternal(node.addresses[i..])
    {
      if node.addresses[i].0 == InternalIP {
        return Some(node.addresses[i].1);
      }
    }
    return None;
  }

  /** The loop that turns the listed backends into a map of IDs. */
  method IdsByAddress(backends: seq<Backend>) returns (ids: map<string, int>)
    ensures forall a :: LastID(backends, a) == if a in ids then Some(ids[a]) else None
  {
    ids := map[];
    for i := 0 to |backends|
      invariant forall a :: LastID(backends[..i], a) == if a in ids then Some(ids[a]) else None
    {
      assert backends[..i + 1][..i] == backends[..i];
      ids := ids[backends[i].address := backends[i].id];
    }
    assert backends[..|backends|] == backends;
  }

  /** buildNodeBalancerConfigNodes */
  method BuildConfigNodes(nodes: seq<Node>, nodePort: Int32, kind: Backends, oldIDs: map<string, int>)
    returns (r: Option<seq<NodeOptions>>)
    ensures r.None? <==> exists i :: 0 <= i < |nodes| && Address(nodes[i], kind, nodePort).None?
    ensures r.Some? ==> |r.value| == |nodes| && forall i :: 0 <= i < |nodes| ==>
      Address(nodes[i], kind, nodePort) == Some(r.value[i].address) &&
      r.value[i].id == if r.value[i].address in oldIDs then Some(oldIDs[r.value[i].address]) else None
  {
    var options: seq<NodeOptions> := [];
    for i := 0 to |nodes|
      invariant |options| == i
      invariant forall j :: 0 <= j < i ==>
        Address(nodes[j], kind, nodePort) == Some(options[j].address) &&
        options[j].id == if options[j].address in oldIDs then Some(oldIDs[options[j].address]) else None
    {
      var ip: Option<string>;
      match kind {
        case IPv6Backends => ip := nodes[i].publicIPv6;
        case IPv4Backends(subnet) => ip := PrivateIP(nodes[i], subnet);
      }
      if ip.None? {
        return None;
      }
      var address := JoinHostPort(ip.value, Itoa(nodePort));
      var id := if address in oldIDs then Some(oldIDs[address]) else None;
      options := options + [NodeOptions(id, address)];
    }
    return Some(options);
  }

  // -- the remote store ---------------------------------------------------------------

  /** An entry of a config listing. */
  datatype Listed = Listed(id: int, port: int)

  type Configs = map<int, Config>

  predicate HasPort(ports: seq<ServicePort>, port: int) {
    exists k :: 0 <= k < |ports| && ports[k].port == port
  }

  ghost predicate ListingOf(listing: seq<Listed>, configs: Configs) {
    && (forall i :: 0 <= i < |listing| ==> listing[i].id in configs && configs[listing[i].id].port == listing[i].port)
    && (forall c :: c in configs ==> Listed(c, configs[c].port) in listing)
    && (forall i, j :: 0 <= i < j < |listing| ==> listing[i].id != listing[j].id)
  }

  predicate IsListed(listing: seq<Listed>, port: int) {
    exists i :: 0 <= i < |listing| && listing[i].port == port
  }

  predicate FirstListed(listing: seq<Listed>, port: int, i: nat) {
    i < |listing| && listing[i].port == port && forall j :: 0 <= j < i ==> listing[j].port != port
  }

  /** Only configs whose port is not a port of the service are missing, and no config has changed. */
  ghost predicate Pruned(s: Configs, t: Configs, ports: seq<ServicePort>) {
    && (forall c :: c in t ==> c in s && t[c] == s[c])
    && (forall c :: c in s && HasPort(ports, s[c].port) ==> c in t)
  }

  /** The step for one port adds at most a config for that port and changes at most the backends of one. */
  ghost predicate TouchesOnly(s: Configs, t: Configs, port: int, next: int) {
    && (forall c :: c in s ==> c in t && t[c].port == s[c].port && (s[c].port != port ==> t[c] == s[c]))
    && (forall c :: c in t && c !in s ==> t[c].port == port && c >= next)
  }

  /** The backends a config had, as far as they could be listed. */
  function Was(configs: Configs, c: int, listed: bool): seq<Backend> {
    if c in configs && listed then configs[c].backends else []
  }

  /** Every node has a backend IP, once it is known which kind is wanted. */
  ghost predicate AllReachable(nodes: seq<Node>, kind: Option<Backends>) {
    kind.Some? && forall i :: 0 <= i < |nodes| ==> BackendIP(nodes[i], kind.value).Some?
  }

  /** One option per node, in order, with the last listed ID for its address, which then is known. */
  ghost predicate OptionsFor(options: seq<NodeOptions>, was: seq<Backend>, nodes: seq<Node>, kind: Backends,
                             nodePort: Int32)
  {
    && |options| == |nodes| && KnownIDs(options, was)
    && forall i :: 0 <= i < |nodes| ==>
         && Address(nodes[i], kind, nodePort) == Some(options[i].address)
         && options[i].id == LastID(was, options[i].address)
  }

  /** The backends are the options, those without an ID numbered anew. */
  ghost predicate RebuiltFrom(backends: seq<Backend>, options: seq<NodeOptions>, next: int) {
    exists first :: first >= next && NumberedFrom(backends, options, first)
  }

  ghost predicate NumberedFrom(backends: seq<Backend>, options: seq<NodeOptions>, first: int) {
    |backends| == |options| && forall i :: 0 <= i < |options| ==> backends[i] == Rebuilt(options[i], first + i)
  }

  lemma OptionsServe(options: seq<NodeOptions>, backends: seq<Backend>, was: seq<Backend>, nodes: seq<Node>,
                     kind: Backends, nodePort: Int32, next: int)
    requires OptionsFor(options, was, nodes, kind, nodePort) && RebuiltFrom(backends, options, next)
    ensures Serves(backends, was, nodes, kind, nodePort, next)
  {
    var first :| first >= next && NumberedFrom(backends, options, first);
    forall i | 0 <= i < |nodes| && LastID(was, backends[i].address).None?
      ensures backends[i].id >= next && NewAndAlone(backends, was, i)
    {
      assert backends[i] == Rebuilt(options[i], first + i) && options[i].id.None?;
    }
    forall i | 0 <= i < |nodes|
      ensures Address(nodes[i], kind, nodePort) == Some(backends[i].address)
      ensures LastID(was, backends[i].address).Some? ==> backends[i].id == LastID(was, backends[i].address).value
    {
      assert backends[i] == Rebuilt(options[i], first + i);
    }
  }

  lemma OldIDsKnown(options: seq<NodeOptions>, oldIDs: map<string, int>, was: seq<Backend>)
    requires forall i :: 0 <= i < |options| && options[i].id.Some? ==>
      options[i].address in oldIDs && options[i].id.value == oldIDs[options[i].address]
    requires forall a :: LastID(was, a) == if a in oldIDs then Some(oldIDs[a]) else None
    ensures KnownIDs(options, was)
  {
    forall i | 0 <= i < |options| && options[i].id.Some?
      ensures exists j :: 0 <= j < |was| && was[j].id == options[i].id.value
    {
      LastIDExact(was, options[i].address);
    }
  }

  class Balancer {
    var configs: Configs
    var next: int
    var calls: nat        // the calls made so far
    const faults: Faults

    /** Config and backend IDs are below `next`, from which new ones are drawn. */
    ghost predicate Valid()
      reads this
    {
      forall c :: c in configs ==>
        c < next && forall i :: 0 <= i < |configs[c].backends| ==> configs[c].backends[i].id < next
    }

    constructor (faults: Faults)
      ensures Valid() && configs == map[] && this.faults == faults
    {
      configs, next, calls, this.faults := map[], 1, 0, faults;
    }

    method NextCallFails() returns (fails: bool)
      modifies this`calls
      ensures calls == old(calls) + 1 && fails == faults(old(calls))
    {
      fails := faults(calls);
      calls := calls + 1;
    }

    // -- the API ----------------------------------------------------------------------

    method ListConfigs() returns (listing: Option<seq<Listed>>)
      modifies this`calls
      ensures calls == old(calls) + 1 && (listing.None? <==> faults(old(calls)))
      ensures listing.Some? ==> ListingOf(listing.value, configs)
    {
      var fails := NextCallFails();
      if fails {
        return None;
      }
      var entries := set c | c in configs :: Listed(c, configs[c].port);
      var list := Listing(entries);
      assert forall i :: 0 <= i < |list| ==> list[i] in entries;
      assert forall c :: c in configs ==> Listed(c, configs[c].port) in entries;
      return Some(list);
    }

    method DeleteConfig(c: int) returns (ok: bool)
      requires Valid()
      modifies this`configs, this`calls
      ensures Valid() && configs == if ok then old(configs) - {c} else old(configs)
      ensures calls == old(calls) + 1 && (ok <==> !faults(old(calls)) && c in old(configs))
    {
      var fails := NextCallFails();
      if fails || c !in configs {
        return false;
      }
      configs := configs - {c};
      return true;
    }

    method CreateConfig(port: int) returns (c: Option<int>)
      requires Valid()
      modifies this
      ensures Valid() && next >= old(next)
      ensures calls == old(calls) + 1 && (c.None? <==> faults(old(calls)))
      ensures c.None? ==> configs == old(configs)
      ensures c.Some? ==>
        c.value !in old(configs) && c.value >= old(next) && configs == old(configs)[c.value := Config(port, [])]
    {
      var fails := NextCallFails();
      if fails {
        return None;
      }
      c := Some(next);
      configs := configs[next := Config(port, [])];
      next := next + 1;
    }

    /** An option with an ID updates that backend, an option without one makes a new backend, and all others go. */
    method RebuildConfig(c: int, port: int, options: seq<NodeOptions>) returns (ok: bool)
      requires Valid()
      modifies this
      ensures Valid() && next >= old(next)
      ensures calls == old(calls) + 1
      ensures ok <==> !faults(old(calls)) && c in old(configs) && KnownIDs(options, old(configs)[c].backends)
      ensures !ok ==> configs == old(configs)
      ensures ok ==>
        c in configs && configs == old(configs)[c := configs[c]] && configs[c].port == port
      ensures ok ==> NumberedFrom(configs[c].backends, options, old(next))
    {
      var fails := NextCallFails();
      if fails || c !in configs {
        return false;
      }
      if !KnownIDs(options, configs[c].backends) {
        return false;
      }
      var first := next;
      var backends := seq(|options|, i requires 0 <= i < |options| =>
        Rebuilt(options[i], first + i));
      configs := configs[c := Config(port, backends)];
      next := next + |options|;
      return true;
    }

    // -- loadbalancers.go -------------------------------------------------------------

    /** deleteUnusedConfigs */
    method DeleteUnusedConfigs(listing: seq<Listed>, ports: seq<ServicePort>) returns (ok: bool)
      requires Valid() && ListingOf(listing, configs)
      modifies this`configs, this`calls
      ensures Valid() && Pruned(old(configs), configs, ports)
      ensures calls >= old(calls) && (ok <==> Smooth(faults, old(calls), calls))
      ensures ok ==> forall c :: c in configs ==> HasPort(ports, configs[c].port)
    {
      for i := 0 to |listing|
        invariant Valid() && Pruned(old(configs), configs, ports)
        invariant forall j :: 0 <= j < i && !HasPort(ports, listing[j].port) ==> listing[j].id !in configs
        invariant forall j :: i <= j < |listing| ==> listing[j].id in configs
        invariant calls >= old(calls) && Smooth(faults, old(calls), calls)
      {
        var found := false;
        for k := 0 to |ports|
          invariant found <==> exists j :: 0 <= j < k && ports[j].port == listing[i].port
        {
          if ports[k].port == listing[i].port {
            found := true;
          }
        }
        if !found {
          ghost var k := calls;
          var deleted := DeleteConfig(listing[i].id);
          SmoothJoin(faults, old(calls), k, calls);
          if !deleted {
            return false;
          }
        }
      }
      forall c | c in configs
        ensures HasPort(ports, configs[c].port)
      {
        var j :| 0 <= j < |listing| && listing[j] == Listed(c, old(configs)[c].port);
      }
      return true;
    }

    method ListNodes(c: int) returns (r: Option<seq<Backend>>)
      modifies this`calls
      ensures calls == old(calls) + 1 && (r.Some? <==> !faults(old(calls)) && c in configs)
      ensures r.Some? ==> r.value == configs[c].backends
    {
      var fails := NextCallFails();
      return if fails || c !in configs then None else Some(configs[c].backends);
    }

    /** The first config listed for a port. */
    static method FindConfig(listing: seq<Listed>, port: int) returns (c: Option<int>)
      ensures c.Some? <==> IsListed(listing, port)
      ensures c.Some? ==> exists i: nat :: FirstListed(listing, port, i) && c.value == listing[i].id
    {
      for i := 0 to |listing|
        invariant forall j :: 0 <= j < i ==> listing[j].port != port
      {
        if listing[i].port == port {
          assert FirstListed(listing, port, i);
          return Some(listing[i].id);
        }
      }
      return None;
    }

    /** The backend IDs of a config by address, as far as its backends can be listed. */
    method ListOldIDs(c: int) returns (ids: map<string, int>, ghost listed: bool)
      requires c in configs
      modifies this`calls
      ensures calls == old(calls) + 1 && listed == !faults(old(calls))
      ensures forall a :: LastID(Was(configs, c, listed), a) == if a in ids then Some(ids[a]) else None
    {
      ids, listed := map[], false;
      var backends := ListNodes(c);
      if backends.Some? {
        listed := true;
        ids := IdsByAddress(backends.value);
      }
    }

    /**
     * One round of the loop of updateNodeBalancer; `buildable` is the answer of buildNodeBalancerConfig, and `listed`
     * says whether the backends of an existing config could be listed, a failure that is ignored.
     */
    method UpdatePort(listing: seq<Listed>, sp: ServicePort, nodes: seq<Node>, kind: Option<Backends>, buildable: bool)
      returns (ok: bool, ghost c: int, ghost listed: bool)
      requires Valid() && Current(listing, configs, sp.port)
      modifies this
      ensures calls >= old(calls)
      ensures ok <==>
        && buildable && AllReachable(nodes, kind) && !faults(old(calls) + 1)
        && (IsListed(listing, sp.port) || !faults(old(calls)))
      ensures ok ==> calls == old(calls) + 2 && (Smooth(faults, old(calls), calls) ==> listed)
      ensures Smooth(faults, old(calls), calls) && !ok ==> !buildable || !AllReachable(nodes, kind)
      ensures Valid() && next >= old(next) && TouchesOnly(old(configs), configs, sp.port, old(next))
      ensures ok ==> kind.Some? && c in configs && configs[c].port == sp.port
      ensures ok ==>
        Serves(configs[c].backends, Was(old(configs), c, listed), nodes, kind.value, sp.nodePort, old(next))
      ensures ok ==> configs == old(configs)[c := configs[c]]
      ensures ok ==> (c in old(configs) <==> IsListed(listing, sp.port))
      ensures ok && IsListed(listing, sp.port) ==>
        exists i: nat :: FirstListed(listing, sp.port, i) && c == listing[i].id
    {
      ok, c, listed := false, 0, true;
      if !buildable {
        return;
      }
      var current := FindConfig(listing, sp.port);
      assert current.Some? ==> current.value in configs && configs[current.value].port == sp.port;
      var options;
      options, listed := PrepareNodes(current, nodes, sp.nodePort, kind);
      ghost var k := calls;
      if options.None? {
        return;
      }
      ghost var was := if current.Some? then Was(configs, current.value, listed) else [];
      ok, c := Apply(current, sp.port, options.value);
      SmoothJoin(faults, old(calls), k, calls);
      if ok {
        OptionsServe(options.value, configs[c].backends, was, nodes, kind.value, sp.nodePort, old(next));
      }
    }

    /** The options for the nodes of one port, with the IDs of the current config's backends as far as listed. */
    method PrepareNodes(current: Option<int>, nodes: seq<Node>, nodePort: Int32, kind: Option<Backends>)
      returns (options: Option<seq<NodeOptions>>, ghost listed: bool)
      requires current.Some? ==> current.value in configs
      modifies this`calls
      ensures calls == old(calls) + if current.Some? then 1 else 0
      ensures listed == (current.None? || !faults(old(calls)))
      ensures options.Some? <==> AllReachable(nodes, kind)
      ensures options.Some? ==> var was := if current.Some? then Was(configs, current.value, listed) else [];
        OptionsFor(options.value, was, nodes, kind.value, nodePort)
    {
      var oldIDs: map<string, int> := map[];
      options, listed := None, true;
      if current.Some? {
        oldIDs, listed := ListOldIDs(current.value);
      }
      if kind.None? {
        return;
      }
      options := BuildConfigNodes(nodes, nodePort, kind.value, oldIDs);
      if options.Some? {
        OldIDsKnown(options.value, oldIDs, if current.Some? then Was(configs, current.value, listed) else []);
      }
    }

    /** Creates the config if there is none, and rebuilds it. */
    method Apply(current: Option<int>, port: int, options: seq<NodeOptions>) returns (ok: bool, ghost c: int)
      requires Valid() && (current.Some? ==> current.value in configs && configs[current.value].port == port)
      requires KnownIDs(options, if current.Some? then configs[current.value].backends else [])
      modifies this
      ensures Valid() && next >= old(next) && TouchesOnly(old(configs), configs, port, old(next))
      ensures calls >= old(calls)
      ensures ok <==> !faults(old(calls)) && (current.None? ==> !faults(old(calls) + 1))
      ensures ok ==> calls == old(calls) + if current.Some? then 1 else 2
      ensures !ok ==> !Smooth(faults, old(calls), calls)
      ensures ok ==> c in configs && configs[c].port == port && configs == old(configs)[c := configs[c]]
      ensures ok ==> (c in old(configs) <==> current.Some?) && (current.Some? ==> c == current.value)
      ensures ok ==> RebuiltFrom(configs[c].backends, options, old(next))
    {
      ok, c := false, 0;
      var config := current;
      if config.None? {
        config := CreateConfig(port);
        if config.None? {
          return;
        }
      }
      c := config.value;
      ok := RebuildConfig(config.value, port, options);
      SmoothJoin(faults, old(calls), calls - 1, calls);
    }

    /**
     * updateNodeBalancer from the config listing on; `kind` is None when the backend subnet cannot be determined.
     * `chosen` are the configs that serve the ports.
     */
    method UpdateNodeBalancer(ports: seq<ServicePort>, nodes: seq<Node>, kind: Option<Backends>,
                              buildable: nat -> bool)
      returns (ok: bool, ghost chosen: seq<int>, ghost listed: seq<bool>)
      requires Valid()
      modifies this
      ensures Valid() && calls > old(calls)
      ensures Smooth(faults, old(calls), calls) ==> (ok <==> Feasible(ports, nodes, kind, buildable))
      ensures ok ==> Feasible(ports, nodes, kind, buildable)
      ensures ok && Smooth(faults, old(calls), calls) ==> forall k :: 0 <= k < |listed| ==> listed[k]
      ensures ok && DistinctPorts(ports) ==> AllAddressed(configs, chosen, nodes, kind, ports)
      ensures WantedKept(old(configs), configs, ports)
      ensures ok ==> forall c :: c in configs ==> HasPort(ports, configs[c].port)
      ensures ok ==> AllServed(old(configs), configs, chosen, listed, nodes, kind, ports, |ports|, old(next))
      ensures ok && DistinctPorts(ports) ==> (OnePerPort(configs) <==> OnePerWantedPort(old(configs), ports))
    {
      ok, chosen, listed := false, [], [];
      var listing := ListConfigs();
      if listing.None? {
        return;
      }
      var pruned := DeleteUnusedConfigs(listing.value, ports);
      SmoothJoin(faults, old(calls), old(calls) + 1, calls);
      if !pruned {
        return;
      }
      ghost var m := calls;
      ok, chosen, listed := UpdatePorts(listing.value, ports, nodes, kind, buildable, old(configs), old(next));
      SmoothJoin(faults, old(calls), m, calls);
      if ok && DistinctPorts(ports) {
        ServedAddressed(old(configs), configs, chosen, listed, nodes, kind, ports, old(next));
      }
    }

    /** The loop over the ports; `s` are the configs that were listed, before the unused ones were deleted. */
    method UpdatePorts(listing: seq<Listed>, ports: seq<ServicePort>, nodes: seq<Node>, kind: Option<Backends>,
                       buildable: nat -> bool, ghost s: Configs, ghost n0: int)
      returns (ok: bool, ghost chosen: seq<int>, ghost listed: seq<bool>)
      requires Valid() && ListingOf(listing, s) && Progress(s, configs, ports, 0, n0) && next >= n0
      modifies this
      ensures Valid() && calls >= old(calls) && WantedKept(s, configs, ports)
      ensures Smooth(faults, old(calls), calls) ==> (ok <==> Feasible(ports, nodes, kind, buildable))
      ensures ok ==> Feasible(ports, nodes, kind, buildable) && Progress(s, configs, ports, |ports|, n0)
      ensures ok ==> AllServed(s, configs, chosen, listed, nodes, kind, ports, |ports|, n0)
      ensures ok && Smooth(faults, old(calls), calls) ==> forall k :: 0 <= k < |listed| ==> listed[k]
      ensures ok && DistinctPorts(ports) && OnePerPort(old(configs)) ==> OnePerPort(configs)
    {
      ok, chosen, listed := false, [], [];
      for k := 0 to |ports|
        invariant Valid() && next >= n0 && calls >= old(calls)
        invariant Looped(s, old(configs), configs, chosen, listed, nodes, kind, ports, k, n0)
        invariant (k > 0 ==> AllReachable(nodes, kind)) && forall j :: 0 <= j < k ==> buildable(j)
        invariant Smooth(faults, old(calls), calls) ==> forall j :: 0 <= j < k ==> listed[j]
      {
        ghost var before, n, m := configs, next, calls;
        StillListed(listing, s, configs, ports, k, n0);
        var done, c, l := UpdatePort(listing, ports[k], nodes, kind, buildable(k));
        SmoothJoin(faults, old(calls), m, calls);
        ProgressStep(s, before, configs, ports, k, n0, n);
        if !done {
          return;
        }
        LoopedStep(listing, s, old(configs), before, configs, chosen, listed, nodes, kind.value, ports, k, n0, n, c, l);
        chosen, listed := chosen + [c], listed + [l];
      }
      ok := true;
    }
  }

  /** What a service asks for can be built. */
  ghost predicate Feasible(ports: seq<ServicePort>, nodes: seq<Node>, kind: Option<Backends>, buildable: nat -> bool) {
    (ports != [] ==> AllReachable(nodes, kind)) && forall k :: 0 <= k < |ports| ==> buildable(k)
  }

  /** The backends of each port are the nodes in order, each under its host and the node port. */
  ghost predicate AllAddressed(t: Configs, chosen: seq<int>, nodes: seq<Node>, kind: Option<Backends>,
                               ports: seq<ServicePort>)
  {
    |chosen| == |ports| && forall k :: 0 <= k < |ports| ==>
      && kind.Some? && chosen[k] in t && |t[chosen[k]].backends| == |nodes|
      && forall i :: 0 <= i < |nodes| ==>
           IsBackendAddress(nodes[i], kind.value, ports[k].nodePort, t[chosen[k]].backends[i].address)
  }

  lemma ServedAddressed(s: Configs, t: Configs, chosen: seq<int>, listed: seq<bool>, nodes: seq<Node>,
                        kind: Option<Backends>, ports: seq<ServicePort>, next: int)
    requires AllServed(s, t, chosen, listed, nodes, kind, ports, |ports|, next) && DistinctPorts(ports)
    ensures AllAddressed(t, chosen, nodes, kind, ports)
  {
    forall k, i | 0 <= k < |ports| && 0 <= i < |nodes|
      ensures IsBackendAddress(nodes[i], kind.value, ports[k].nodePort, t[chosen[k]].backends[i].address)
    {
      assert Address(nodes[i], kind.value, ports[k].nodePort) == Some(t[chosen[k]].backends[i].address);
    }
  }

  /** The configs listed for a port are still there. */
  ghost predicate Current(listing: seq<Listed>, configs: Configs, port: int) {
    forall i :: 0 <= i < |listing| && listing[i].port == port ==>
      listing[i].id in configs && configs[listing[i].id].port == port
  }

  /** No config for a port of the service is deleted or given to another port. */
  ghost predicate WantedKept(s: Configs, t: Configs, ports: seq<ServicePort>) {
    forall c :: c in s && HasPort(ports, s[c].port) ==> c in t && t[c].port == s[c].port
  }

  /** The first k ports are served by the chosen configs. */
  ghost predicate AllServed(s: Configs, t: Configs, chosen: seq<int>, listed: seq<bool>, nodes: seq<Node>,
                            kind: Option<Backends>,
                            ports: seq<ServicePort>, k: nat, next: int)
  {
    && |chosen| == |listed| == k <= |ports| && (k > 0 ==> kind.Some?)
    && (forall j :: 0 <= j < k ==> chosen[j] in t && t[chosen[j]].port == ports[j].port)
    && (DistinctPorts(ports) ==> forall j :: 0 <= j < k ==>
          Serves(t[chosen[j]].backends, Was(s, chosen[j], listed[j]), nodes, kind.value, ports[j].nodePort, next))
  }

  lemma ServedStep(s: Configs, t: Configs, u: Configs, chosen: seq<int>, listed: seq<bool>, nodes: seq<Node>,
                   kind: Backends,
                   ports: seq<ServicePort>, k: nat, next: int, n: int, c: int, l: bool)
    requires k < |ports| && next <= n && Progress(s, t, ports, k, next)
    requires AllServed(s, t, chosen, listed, nodes, Some(kind), ports, k, next)
    requires c in u && u[c].port == ports[k].port && u == t[c := u[c]]
    requires if c in t then t[c].port == ports[k].port else c >= n
    requires Serves(u[c].backends, Was(t, c, l), nodes, kind, ports[k].nodePort, n)
    ensures AllServed(s, u, chosen + [c], listed + [l], nodes, Some(kind), ports, k + 1, next)
  {
  }

  ghost predicate DistinctPorts(ports: seq<ServicePort>) {
    forall j, k :: 0 <= j < k < |ports| ==> ports[j].port != ports[k].port
  }

  ghost predicate OnePerPort(configs: Configs) {
    forall c, d :: c in configs && d in configs && configs[c].port == configs[d].port ==> c == d
  }

  ghost predicate OnePerWantedPort(configs: Configs, ports: seq<ServicePort>) {
    forall c, d :: c in configs && d in configs && HasPort(ports, configs[c].port) ==>
      configs[c].port == configs[d].port ==> c == d
  }

  /**
   * Where the loop stands before round k: what was there for a later port is as it was, and what is new is for an
   * earlier one.
   */
  ghost predicate Progress(s: Configs, t: Configs, ports: seq<ServicePort>, k: nat, next: int)
    requires k <= |ports|
  {
    && WantedKept(s, t, ports)
    && (forall c :: c in s ==> c < next)
    && (forall c :: c in t ==> HasPort(ports, t[c].port))
    && (forall c :: c in t && c in s && !HasPort(ports[..k], t[c].port) ==> t[c] == s[c])
    && (forall c :: c in t && c !in s ==> c >= next && HasPort(ports[..k], t[c].port))
  }

  lemma ProgressStep(s: Configs, t: Configs, u: Configs, ports: seq<ServicePort>, k: nat, next: int, n: int)
    requires k < |ports| && next <= n && Progress(s, t, ports, k, next) && TouchesOnly(t, u, ports[k].port, n)
    ensures Progress(s, u, ports, k + 1, next)
  {
  }

  lemma StillListed(listing: seq<Listed>, s: Configs, t: Configs, ports: seq<ServicePort>, k: nat, next: int)
    requires k < |ports| && ListingOf(listing, s) && Progress(s, t, ports, k, next)
    ensures Current(listing, t, ports[k].port)
  {
  }

  lemma StaysUnique(listing: seq<Listed>, s: Configs, t: Configs, u: Configs, ports: seq<ServicePort>, k: nat,
                    next: int, c: int)
    requires k < |ports| && ListingOf(listing, s) && Progress(s, t, ports, k, next)
    requires c in u && u[c].port == ports[k].port && u == t[c := u[c]]
    requires c in t <==> IsListed(listing, ports[k].port)
    requires c in t ==> t[c].port == ports[k].port
    ensures DistinctPorts(ports) && OnePerPort(t) ==> OnePerPort(u)
  {
  }

  /** The state of the loop over the ports before round k. */
  ghost predicate Looped(s: Configs, first: Configs, t: Configs, chosen: seq<int>, listed: seq<bool>, nodes: seq<Node>,
                         kind: Option<Backends>, ports: seq<ServicePort>, k: nat, next: int)
    requires k <= |ports|
  {
    && Progress(s, t, ports, k, next) && AllServed(s, t, chosen, listed, nodes, kind, ports, k, next)
    && (DistinctPorts(ports) && OnePerPort(first) ==> OnePerPort(t))
  }

  lemma LoopedStep(listing: seq<Listed>, s: Configs, first: Configs, t: Configs, u: Configs, chosen: seq<int>,
                   listed: seq<bool>, nodes: seq<Node>, kind: Backends, ports: seq<ServicePort>, k: nat, next: int,
                   n: int, c: int, l: bool)
    requires k < |ports| && next <= n && ListingOf(listing, s) && TouchesOnly(t, u, ports[k].port, n)
    requires Looped(s, first, t, chosen, listed, nodes, Some(kind), ports, k, next)
    requires c in u && u[c].port == ports[k].port && u == t[c := u[c]] && (c in t <==> IsListed(listing, ports[k].port))
    requires Serves(u[c].backends, Was(t, c, l), nodes, kind, ports[k].nodePort, n)
    ensures Looped(s, first, u, chosen + [c], listed + [l], nodes, Some(kind), ports, k + 1, next)
  {
    ProgressStep(s, t, u, ports, k, next, n);
    ServedStep(s, t, u, chosen, listed, nodes, kind, ports, k, next, n, c, l);
    StaysUnique(listing, s, t, u, ports, k, next, c);
  }

  // -- what a successful update means ---------------------------------------------------

  ghost predicate DistinctIDs(backends: seq<Backend>) {
    forall i, j :: 0 <= i < j < |backends| ==> backends[i].id != backends[j].id
  }

  /** A backend of the new config is one of the old ones exactly when its address was there; otherwise its ID is new. */
  lemma KeepsIDExactly(backends: seq<Backend>, was: seq<Backend>, nodes: seq<Node>, kind: Backends, nodePort: Int32,
                       next: int, i: nat)
    requires Serves(backends, was, nodes, kind, nodePort, next) && i < |nodes|
    requires forall j :: 0 <= j < |was| ==> was[j].id < next
    ensures backends[i] in was <==> exists j :: 0 <= j < |was| && was[j].address == backends[i].address
    ensures backends[i] in was <==> backends[i].id < next
  {
    LastIDExact(was, backends[i].address);
  }

  /** Nodes with different IPs get one backend each, with different addresses and different IDs. */
  lemma OneBackendPerNode(backends: seq<Backend>, was: seq<Backend>, nodes: seq<Node>, kind: Backends,
                          nodePort: Int32, next: int, i: nat, j: nat)
    requires Serves(backends, was, nodes, kind, nodePort, next) && i < j < |nodes|
    requires DistinctIDs(was) && forall k :: 0 <= k < |was| ==> was[k].id < next
    requires BackendIP(nodes[i], kind) != BackendIP(nodes[j], kind)
    ensures backends[i].address != backends[j].address && backends[i].id != backends[j].id
  {
    JoinHostPortInjective(BackendIP(nodes[i], kind).value, BackendIP(nodes[j], kind).value, Itoa(nodePort));
    LastIDExact(was, backends[i].address);
    LastIDExact(was, backends[j].address);
  }

  ghost predicate ServesPort(configs: Configs, c: int, port: int) {
    c in configs && configs[c].port == port
  }

  /**
   * After a successful update of a service with distinct ports, the configs are exactly the chosen ones, one per
   * port.
   */
  lemma ConfigsMatchPorts(s: Configs, t: Configs, chosen: seq<int>, listed: seq<bool>, nodes: seq<Node>,
                          kind: Option<Backends>,
                          ports: seq<ServicePort>, next: int)
    requires AllServed(s, t, chosen, listed, nodes, kind, ports, |ports|, next) && OnePerPort(t)
    requires forall c :: c in t ==> HasPort(ports, t[c].port)
    ensures forall p :: HasPort(ports, p) <==> exists c :: ServesPort(t, c, p)
    ensures forall c :: c in t <==> c in chosen
  {
    forall p | HasPort(ports, p)
      ensures exists c :: ServesPort(t, c, p)
    {
      var k :| 0 <= k < |ports| && ports[k].port == p;
      assert ServesPort(t, chosen[k], p);
    }
    forall c | c in t
      ensures c in chosen
    {
      var k :| 0 <= k < |ports| && ports[k].port == t[c].port;
      assert chosen[k] == c;
    }
  }

  ghost predicate DistinctIPs(nodes: seq<Node>, kind: Backends) {
    forall i, j :: 0 <= i < j < |nodes| ==> BackendIP(nodes[i], kind) != BackendIP(nodes[j], kind)
  }

  lemma {:induction false} LastIDOfDistinct(backends: seq<Backend>, i: nat)
    requires i < |backends| && forall j, k :: 0 <= j < k < |backends| ==> backends[j].address != backends[k].address
    ensures LastID(backends, backends[i].address) == Some(backends[i].id)
  {
    if i < |backends| - 1 {
      LastIDOfDistinct(backends[..|backends| - 1], i);
    }
  }

  /** Serving the same nodes again, from the backends that serve them, changes neither an address nor an ID. */
  lemma ServesAgain(once: seq<Backend>, was: seq<Backend>, twice: seq<Backend>, nodes: seq<Node>, kind: Backends,
                    nodePort: Int32, n: int, m: int)
    requires Serves(once, was, nodes, kind, nodePort, n) && Serves(twice, once, nodes, kind, nodePort, m)
    requires DistinctIPs(nodes, kind)
    ensures twice == once
  {
    forall i, j | 0 <= i < j < |nodes|
      ensures once[i].address != once[j].address
    {
      JoinHostPortInjective(BackendIP(nodes[i], kind).value, BackendIP(nodes[j], kind).value, Itoa(nodePort));
    }
    forall i | 0 <= i < |nodes|
      ensures twice[i] == once[i]
    {
      LastIDOfDistinct(once, i);
    }
  }

  /** A second successful update for the same service and nodes leaves every config and every backend as it is. */
  lemma UpdateIsFixpoint(s: Configs, t: Configs, u: Configs, chosen: seq<int>, again: seq<int>, listed: seq<bool>,
                         relisted: seq<bool>,
                         nodes: seq<Node>, kind: Option<Backends>, ports: seq<ServicePort>, n: int, m: int)
    requires AllServed(s, t, chosen, listed, nodes, kind, ports, |ports|, n) && OnePerPort(t)
    requires AllServed(t, u, again, relisted, nodes, kind, ports, |ports|, m) && OnePerPort(u)
    requires WantedKept(t, u, ports)
    requires forall c :: c in t ==> HasPort(ports, t[c].port)
    requires forall c :: c in u ==> HasPort(ports, u[c].port)
    requires DistinctPorts(ports) && (kind.Some? ==> DistinctIPs(nodes, kind.value))
    requires forall k :: 0 <= k < |relisted| ==> relisted[k]
    ensures u == t
  {
    forall k | 0 <= k < |ports|
      ensures again[k] == chosen[k] && u[again[k]] == t[chosen[k]]
    {
      SameConfig(s, t, u, chosen, again, listed, relisted, nodes, kind, ports, n, m, k);
    }
    assert again == chosen;
    ConfigsMatchPorts(s, t, chosen, listed, nodes, kind, ports, n);
    ConfigsMatchPorts(t, u, again, relisted, nodes, kind, ports, m);
    SameEntries(t, u, chosen);
  }

  lemma SameEntries(t: Configs, u: Configs, chosen: seq<int>)
    requires (forall c :: c in t <==> c in chosen) && (forall c :: c in u <==> c in chosen)
    requires forall k :: 0 <= k < |chosen| ==> chosen[k] in t && chosen[k] in u && u[chosen[k]] == t[chosen[k]]
    ensures u == t
  {
    forall c | c in t
      ensures c in u && u[c] == t[c]
    {
      var k :| 0 <= k < |chosen| && chosen[k] == c;
    }
    assert forall c :: c in u <==> c in t;
  }

  lemma SameConfig(s: Configs, t: Configs, u: Configs, chosen: seq<int>, again: seq<int>, listed: seq<bool>,
                   relisted: seq<bool>,
                   nodes: seq<Node>, kind: Option<Backends>, ports: seq<ServicePort>, n: int, m: int, k: nat)
    requires AllServed(s, t, chosen, listed, nodes, kind, ports, |ports|, n)
    requires AllServed(t, u, again, relisted, nodes, kind, ports, |ports|, m) && OnePerPort(u)
    requires WantedKept(t, u, ports)
    requires DistinctPorts(ports) && k < |ports| && relisted[k] && DistinctIPs(nodes, kind.value)
    ensures again[k] == chosen[k] && u[again[k]] == t[chosen[k]]
  {
    assert HasPort(ports, ports[k].port);
    assert again[k] == chosen[k];
    var was := Was(s, chosen[k], listed[k]);
    ServesAgain(t[chosen[k]].backends, was, u[again[k]].backends, nodes, kind.value, ports[k].nodePort, n, m);
  }
}
